# OLSR header codec and repository tuples

A Dafny model of two parts of an ns-3 OLSR (RFC 3626) implementation:

- **The wire codec** of `olsr/model/olsr-header.cc`:
  - the 8-bit mantissa/exponent time format (`SecondsToEmf`, `EmfToSeconds`);
  - the 4-byte packet header;
  - the 12-byte message header, which dispatches on its type field to the four message bodies: MID, HELLO, TC and HNA.
- **The per-node state records** of `olsr/model/olsr-repositories.h`:
  - the nine tuple structs, each with its `operator==` identity;
  - the `Willingness` values;
  - the container typedefs.

## Files

- `bytes.dfy` (module `Bytes`): bytes and fixed-width integers as the `Buffer::Iterator` writes and reads them.
  - The network-order `WriteHtonU16/U32/U64` and their `ReadNtoh` counterparts.
  - The unconverted `WriteU16`/`WriteU64` and `ReadU64`, least significant byte first.
  - The predicate `At(data, i, s)`: the bytes at position i start with s.
- `ns3_types.dfy` (module `Ns3Types`): the ns-3 library types the code stores.
  - `Ipv4Address` and `Ipv4Mask` are 32-bit values.
  - `Time` is an integer.
  - `Vector` is a triple of 64-bit patterns.
- `time_encoding.dfy` (module `TimeEncoding`): the Vtime/Htime format over exact reals.
  - `SecondsToEmf` is an imperative method with the search loop for the exponent.
  - It is proved equal to the function `EmfCode`.
  - The properties of `EmfCode` are proved as lemmas: clamping, the nibble range, half-step rounding error, and decode-then-encode.
- `header_format.dfy` (module `HeaderFormat`): the wire format as values.
  - For each header and body: its value datatype, the size `GetSerializedSize` reports, and the bytes `Serialize` writes (`Encode*`).
  - What `Deserialize` reads back from bytes at a position (`Decode*`, `ParseLinkMessages`), with the precondition it needs (`*Fits`).
  - Round-trip lemmas in both directions where the format allows it.
- `olsr_header.dfy` (module `OlsrHeader`): the header objects as classes whose fields the methods update.
  - The classes are `PacketHeader`, `MessageHeader`, `Mid`, `Hello`, `Tc` and `Hna`.
  - `Serialize` returns the bytes it writes.
  - `Deserialize(data, start, …)` assigns the fields, as the C++ code does through a `Buffer::Iterator` passed by value, and returns the count the C++ code returns.
  - Each method is proved against the functions of `HeaderFormat`.
- `repositories.dfy` (module `Repositories`): the tuple datatypes, their identities as boolean functions, the `Willingness` constants and the containers.

### How the code's integer arithmetic is modelled

- **uint32_t subtraction wraps modulo 2^32.** This covers the body length `messageSize - 12`, the TC address region `messageSize - 36`, and the HELLO counter `remainingSize -= lmSize` (`ToU32`).
- **Values written with `WriteHtonU16` are truncated to 16 bits** (`ToU16`). This covers the message size field and the link-message size field.
- **`(lmSize - 4) / 4` is C `int` division.** It truncates toward zero, so a size field below 8 reads no addresses (`AddressCount`).
- **`NS_ASSERT`s become preconditions:**
  - a message type from 1 to 4;
  - a MID length that is a multiple of 4, and an HNA length that is a multiple of 8;
  - HELLO and TC lengths of at least 4;
  - nibbles in range for the time encoder, which holds for inputs up to 4032 s.
- **Quirks are reproduced, not fixed:**
  - `Hello::GetSerializedSize` omits the 24 position bytes that `Hello::Serialize` writes, so the size field of a HELLO message falls 24 bytes short.
  - `Tc::Deserialize` clears the list before calling `GetSerializedSize()`, which therefore yields 36.
  - TC reports a bad length by returning 0.
  - HELLO writes its 64-bit fields in network order and TC in the unconverted order.

## Model

| member | source | states |
|---|---|---|
| TimeEncoding.EmfToSecondsValue | olsr/model/olsr-header.cc:95-102 | the code with nibbles a, b decodes to (16 + a) * 2^b / 256 s, which lies in the octave [C * 2^b, 2 * C * 2^b) |
| TimeEncoding.Log2Floor | olsr/model/olsr-header.cc:60-66 | the exponent the search finds is the b with 2^b <= T/C < 2^(b+1) |
| TimeEncoding.Clamp | olsr/model/olsr-header.cc:54-58 | every input below C is replaced by C, and every other input is kept |
| TimeEncoding.RawMantissa | olsr/model/olsr-header.cc:68-72 | the rounded mantissa ceil(16 * (T/(C * 2^b) - 1) - 0.5) lies in 0..16 |
| TimeEncoding.Nibbles | olsr/model/olsr-header.cc:74-82 | after the carry the mantissa nibble is in 0..15 |
| TimeEncoding.NibblesInRange | olsr/model/olsr-header.cc:81-83 | the exponent nibble is below 16 exactly when the input is at most 4032 s |
| TimeEncoding.SecondsToEmf | olsr/model/olsr-header.cc:48-87 | the clamp, the search loop, the rounding and the carry compute EmfCode(seconds) |
| TimeEncoding.BelowCEncodesAsZero | olsr/model/olsr-header.cc:54-58 | every input up to C encodes as 0x00, and 0x00 decodes to C |
| TimeEncoding.Quantization | olsr/model/olsr-header.cc:48-102 | the decoded code lies within half a mantissa step C * 2^b / 16 of the clamped input, and that step is at most a sixteenth of it |
| TimeEncoding.DecodeEncode | olsr/model/olsr-header.cc:48-102 | every code decodes to at most 4032 s and re-encodes to itself |
| HeaderFormat.EncodePacketHeader | olsr/model/olsr-header.cc:132-150 | the packet header is 4 bytes |
| HeaderFormat.PacketHeaderRoundTrip | olsr/model/olsr-header.cc:144-159 | reading the written length and sequence number gives them back |
| HeaderFormat.PacketHeaderBytesRoundTrip | olsr/model/olsr-header.cc:144-159 | writing back a read header reproduces its 4 bytes |
| HeaderFormat.EncodeAddresses | olsr/model/olsr-header.cc:354-364 | n addresses take 4n bytes |
| HeaderFormat.ReadAddresses | olsr/model/olsr-header.cc:366-382 | reading n addresses gives n addresses |
| HeaderFormat.AddressesRoundTrip | olsr/model/olsr-header.cc:354-382 | written addresses are read back in order |
| HeaderFormat.AddressBytesRoundTrip | olsr/model/olsr-header.cc:354-382 | addresses read and written back reproduce the bytes |
| HeaderFormat.EncodeMid | olsr/model/olsr-header.cc:328-364 | a MID body is 4 bytes per address, as its size says |
| HeaderFormat.DecodeMid | olsr/model/olsr-header.cc:366-382 | the decoded MID body has the size of the length it was given |
| HeaderFormat.MidRoundTrip | olsr/model/olsr-header.cc:328-382 | a MID body is read back from its bytes with its own size as length |
| HeaderFormat.MidBytesRoundTrip | olsr/model/olsr-header.cc:354-382 | a decoded MID body re-encodes to the bytes it came from |
| HeaderFormat.EncodeLinkMessage | olsr/model/olsr-header.cc:436-450 | a link message takes 4 + 4k bytes |
| HeaderFormat.EncodeLinkMessages | olsr/model/olsr-header.cc:434-451 | the link messages take the sum of their sizes |
| HeaderFormat.EncodeHello | olsr/model/olsr-header.cc:386-460 | Serialize writes 24 bytes more than GetSerializedSize reports |
| HeaderFormat.ParseLinkMessages | olsr/model/olsr-header.cc:474-488 | the reading loop stops inside the data, after its start |
| HeaderFormat.ParseLinkMessagesStep | olsr/model/olsr-header.cc:474-488 | one turn of the loop reads one link message and leaves the rest of the parse unchanged |
| HeaderFormat.LinkMessageAt | olsr/model/olsr-header.cc:436-485 | the code, the size field and the addresses of a written link message are where the reader looks |
| HeaderFormat.LinkMessagesAt | olsr/model/olsr-header.cc:434-451 | the same for each link message of a list written one after another |
| HeaderFormat.LinkChainStep | olsr/model/olsr-header.cc:474-488 | a link message in front of a chain the loop reads is read too, and the uint32_t counter stays exact |
| HeaderFormat.LinkChainRoundTrip | olsr/model/olsr-header.cc:472-488 | the loop reads written link messages back and its counter reaches 0 exactly at their end |
| HeaderFormat.HelloAt | olsr/model/olsr-header.cc:427-460 | hTime, willingness, the link messages and the position of a written HELLO are where the reader looks |
| HeaderFormat.HelloFieldsDecode | olsr/model/olsr-header.cc:462-497 | reading those fields gives the HELLO back |
| HeaderFormat.HelloRoundTrip | olsr/model/olsr-header.cc:386-497 | a HELLO body is read back from its bytes with GetSerializedSize as length |
| HeaderFormat.EncodeTc | olsr/model/olsr-header.cc:501-555 | a TC body takes 4 + 4n + 32 bytes, as its size says |
| HeaderFormat.TcAddressBytesMod4 | olsr/model/olsr-header.cc:568-569 | the wrapped messageSize - 36 is a multiple of 4 exactly when messageSize is |
| HeaderFormat.DecodeTc | olsr/model/olsr-header.cc:557-590 | decoding fails exactly when the length is not a multiple of 4, and the ansn is read either way |
| HeaderFormat.TcShortLengthWraps | olsr/model/olsr-header.cc:568-574 | a length below 36 that is a multiple of 4 wraps and asks for at least 2^30 - 9 addresses |
| HeaderFormat.TcAt | olsr/model/olsr-header.cc:530-555 | the ansn, the addresses and the four 64-bit fields of a written TC are where the reader looks |
| HeaderFormat.TcFieldsDecode | olsr/model/olsr-header.cc:557-590 | reading those fields gives the TC back |
| HeaderFormat.TcRoundTrip | olsr/model/olsr-header.cc:501-590 | a TC body is read back from its bytes with its own size as length |
| HeaderFormat.EncodeAssociations | olsr/model/olsr-header.cc:620-630 | n associations take 8n bytes |
| HeaderFormat.ReadAssociations | olsr/model/olsr-header.cc:632-647 | reading n pairs gives n associations |
| HeaderFormat.AssociationsRoundTrip | olsr/model/olsr-header.cc:620-647 | written (address, mask) pairs are read back in order |
| HeaderFormat.AssociationBytesRoundTrip | olsr/model/olsr-header.cc:620-647 | pairs read and written back reproduce the bytes |
| HeaderFormat.EncodeHna | olsr/model/olsr-header.cc:594-630 | an HNA body is 8 bytes per association, as its size says |
| HeaderFormat.DecodeHna | olsr/model/olsr-header.cc:632-647 | the decoded HNA body has the size of the length it was given |
| HeaderFormat.HnaRoundTrip | olsr/model/olsr-header.cc:594-647 | an HNA body is read back from its bytes with its own size as length |
| HeaderFormat.HnaBytesRoundTrip | olsr/model/olsr-header.cc:620-647 | a decoded HNA body re-encodes to the bytes it came from |
| HeaderFormat.EncodeBody | olsr/model/olsr-header.cc:274-289 | each body takes its reported size, and HELLO 24 bytes more |
| HeaderFormat.EncodeFields | olsr/model/olsr-header.cc:265-271 | the message header fields take 12 bytes |
| HeaderFormat.EncodeMessage | olsr/model/olsr-header.cc:261-290 | a message starts with its type and runs 12 + body size bytes, 24 more for HELLO |
| HeaderFormat.FieldsRoundTrip | olsr/model/olsr-header.cc:265-304 | the 12 header bytes are read back, with the size field holding what was written there |
| HeaderFormat.DecodeBody | olsr/model/olsr-header.cc:306-321 | a parsed body has the type that was read, and only TC with a bad length fails |
| HeaderFormat.DeserializeReturnsSizeField | olsr/model/olsr-header.cc:305-323 | when the body parses, Deserialize returns the size field it read, also one below 12; after a TC length error it returns 12 |
| HeaderFormat.SizeFieldWraps | olsr/model/olsr-header.cc:305-323 | subtracting 12 and adding it back, both modulo 2^32, restores a 16-bit size |
| HeaderFormat.BodyRoundTrip | olsr/model/olsr-header.cc:273-321 | each body is read back by the decoder of its own type |
| HeaderFormat.MessageRoundTrip | olsr/model/olsr-header.cc:190-324 | a message is read back with the computed size in place of the stored one, and Deserialize returns that size |
| HeaderFormat.HelloSizeFieldUndercounts | olsr/model/olsr-header.cc:261-460 | the size field of a HELLO message is 24 less than the bytes written |
| OlsrHeader.WriteAddresses | olsr/model/olsr-header.cc:358-363 | the address loop writes EncodeAddresses |
| OlsrHeader.ReadAddressList | olsr/model/olsr-header.cc:376-380 | the address loop reads ReadAddresses |
| OlsrHeader.WriteLinkMessage | olsr/model/olsr-header.cc:436-450 | one turn of the HELLO writing loop writes EncodeLinkMessage |
| OlsrHeader.PacketHeader.GetSerializedSize | olsr/model/olsr-header.cc:132-136 | the reported size is the number of bytes Serialize writes |
| OlsrHeader.PacketHeader.Serialize | olsr/model/olsr-header.cc:144-150 | writes EncodePacketHeader of the fields |
| OlsrHeader.PacketHeader.Deserialize | olsr/model/olsr-header.cc:152-159 | sets the fields to DecodePacketHeader and returns 4 |
| OlsrHeader.Mid.GetSerializedSize | olsr/model/olsr-header.cc:328-332 | the reported size is the number of bytes Serialize writes, as a uint32_t |
| OlsrHeader.Mid.Serialize | olsr/model/olsr-header.cc:354-364 | writes EncodeMid of the list |
| OlsrHeader.Mid.Deserialize | olsr/model/olsr-header.cc:366-382 | replaces the list by DecodeMid and returns the length |
| OlsrHeader.Hello.GetSerializedSize | olsr/model/olsr-header.cc:386-397 | the loop sums to HelloSize modulo 2^32, 24 less than the bytes Serialize writes |
| OlsrHeader.Hello.Serialize | olsr/model/olsr-header.cc:427-460 | writes EncodeHello of the fields |
| OlsrHeader.Hello.Deserialize | olsr/model/olsr-header.cc:462-497 | sets the fields to DecodeHello and returns the length |
| OlsrHeader.Hello.ReadLinkMessages | olsr/model/olsr-header.cc:472-488 | the while loop appends ParseLinkMessages and stops where it says |
| OlsrHeader.Tc.GetSerializedSize | olsr/model/olsr-header.cc:501-506 | the reported size is the number of bytes Serialize writes, as a uint32_t |
| OlsrHeader.Tc.Serialize | olsr/model/olsr-header.cc:530-555 | writes EncodeTc of the fields |
| OlsrHeader.Tc.Deserialize | olsr/model/olsr-header.cc:557-590 | on a bad length: the ansn is read, the list is emptied, the rest is kept and 0 returned; otherwise the fields become DecodeTc and the length is returned |
| OlsrHeader.Hna.GetSerializedSize | olsr/model/olsr-header.cc:594-598 | the reported size is the number of bytes Serialize writes, as a uint32_t |
| OlsrHeader.Hna.Serialize | olsr/model/olsr-header.cc:620-630 | writes EncodeHna of the list |
| OlsrHeader.Hna.Deserialize | olsr/model/olsr-header.cc:632-647 | replaces the list by DecodeHna and returns the length |
| OlsrHeader.MessageHeader.constructor | olsr/model/olsr-header.cc:164-167 | a new message header has type 0, and each body starts with an empty address, link-message or association list |
| OlsrHeader.MessageHeader.Body | olsr/model/olsr-header.cc:193-213 | the body the type field selects has that type |
| OlsrHeader.MessageHeader.GetSerializedSize | olsr/model/olsr-header.cc:190-214 | 12 plus the body's reported size, as a uint32_t |
| OlsrHeader.MessageHeader.Serialize | olsr/model/olsr-header.cc:261-290 | writes EncodeMessage, whose size field is the computed size truncated to 16 bits |
| OlsrHeader.MessageHeader.Deserialize | olsr/model/olsr-header.cc:292-324 | sets the header fields to DecodeMessage, the selected body to the decoded body (or the TC error state), leaves the other bodies alone, and returns DecodeMessage's count |
| OlsrHeader.MessageHeader.DeserializeBody | olsr/model/olsr-header.cc:305-321 | the body of the read type deserializes itself and the others are unchanged |
| Repositories.IfaceAssocTupleEq | olsr/model/olsr-repositories.h:102-106 | two tuples are equal exactly when they differ at most in time |
| Repositories.LinkTupleEq | olsr/model/olsr-repositories.h:132-136 | equal exactly when they differ at most in symTime, asymTime and time |
| Repositories.NeighborTupleEq | olsr/model/olsr-repositories.h:172-177 | equal exactly when they differ at most in helloInterval |
| Repositories.TwoHopNeighborTupleEq | olsr/model/olsr-repositories.h:211-216 | equal exactly when they differ at most in expirationTime and helloInterval |
| Repositories.MprSelectorTupleEq | olsr/model/olsr-repositories.h:228-232 | equal exactly when they differ at most in expirationTime |
| Repositories.DuplicateTupleEq | olsr/model/olsr-repositories.h:253-257 | equal exactly when they differ at most in retransmitted, ifaceList and expirationTime |
| Repositories.TopologyTupleEq | olsr/model/olsr-repositories.h:277-282 | equal exactly when they differ at most in expirationTime, position and helloInterval |
| Repositories.AssociationEq | olsr/model/olsr-repositories.h:301-305 | equal exactly when all fields are equal |
| Repositories.AssociationTupleEq | olsr/model/olsr-repositories.h:328-333 | equal exactly when they differ at most in expirationTime |
| Repositories.IfaceAssocTupleEqIsEquivalence | olsr/model/olsr-repositories.h:103-106 | the IfaceAssocTuple identity is reflexive, symmetric and transitive |
| Repositories.LinkTupleEqIsEquivalence | olsr/model/olsr-repositories.h:133-136 | the LinkTuple identity is reflexive, symmetric and transitive |
| Repositories.NeighborTupleEqIsEquivalence | olsr/model/olsr-repositories.h:173-177 | the NeighborTuple identity is reflexive, symmetric and transitive |
| Repositories.TwoHopNeighborTupleEqIsEquivalence | olsr/model/olsr-repositories.h:212-216 | the TwoHopNeighborTuple identity is reflexive, symmetric and transitive |
| Repositories.MprSelectorTupleEqIsEquivalence | olsr/model/olsr-repositories.h:229-232 | the MprSelectorTuple identity is reflexive, symmetric and transitive |
| Repositories.DuplicateTupleEqIsEquivalence | olsr/model/olsr-repositories.h:254-257 | the DuplicateTuple identity is reflexive, symmetric and transitive |
| Repositories.TopologyTupleEqIsEquivalence | olsr/model/olsr-repositories.h:278-282 | the TopologyTuple identity is reflexive, symmetric and transitive |
| Repositories.AssociationEqIsEquivalence | olsr/model/olsr-repositories.h:302-305 | the Association identity is reflexive, symmetric and transitive |
| Repositories.AssociationTupleEqIsEquivalence | olsr/model/olsr-repositories.h:329-333 | the AssociationTuple identity is reflexive, symmetric and transitive |

## Left out

- IEEE doubles are not modelled.
  - Durations are exact reals in `TimeEncoding`.
  - The position coordinates and the TC hello interval are the 64-bit patterns `DoubleToUint64` produces.
  - `DoubleToUint64` and `Uint64ToDouble` are not modelled.
- The Buffer iterator is modelled as a byte sequence plus a position.
  - `Serialize` returns the bytes it writes rather than writing into a buffer.
  - Writing past the end of a buffer is not modelled. That includes the 24-byte overrun of a buffer sized by a HELLO message's `GetSerializedSize`.
- `Print`, the `operator<<` overloads, `NS_LOG_*` and the `TypeId` registration are stream output and framework boilerplate. They are not modelled.
- The MessageHeader getters and setters are not modelled separately. They read and assign the fields the classes expose.
- The type numbers HELLO = 1, TC = 2, MID = 3 and HNA = 4 follow section 18.4 of RFC 3626. olsr/model/olsr-header.h is not part of this model.
- The repository update, expiry and lookup operations are outside this model, as are MPR selection and routing. They live in files that are not part of this model, so the containers are only type aliases.
- The simulation drivers under scratch/ are not modelled. They are node, channel and statistics setup with no codec or repository logic.
- Two behaviours follow the code and not a plausible alternative design:
  - an unknown message type is an assertion in the code, hence a precondition; the model does not report it as a decode error;
  - NeighborTuple's identity compares status and willingness as well as the address; it is not an identity by address alone.
- Every decoder requires that its reads stay inside the data. The code reads past a short buffer; the model requires that it does not. These preconditions are `DecodePacketHeader`'s bound, `MidFits`, `HelloFits`, `TcFits`, `HnaFits`, `BodyFits` and `MessageFits`. Two of them go beyond a plain length bound:
  - for HELLO, the chain of size fields must bring the uint32_t counter to exactly 0 inside the data;
  - for TC, a length below 36 that is a multiple of 4 wraps around (see `TcShortLengthWraps`), so that length is accepted only when the data is long enough for the wrapped count.
