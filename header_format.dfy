/**
  The OLSR wire format as values: what each header and message body is, how
  many bytes its GetSerializedSize reports, the bytes its Serialize writes,
  and what its Deserialize reads back from a byte sequence at a position.

  The decoders follow the reading code step by step, including its integer
  conversions: a body length is `messageSize - 12` converted to uint32_t, the
  HELLO loop subtracts each link message's size field from a uint32_t
  counter, and TC subtracts 36, the size of a TC with no addresses.
 */
module HeaderFormat {
  import opened Bytes
  import opened Ns3Types

  /** Message types, as in section 18.4 of RFC 3626. */
  const HELLO_MESSAGE: byte := 1
  const TC_MESSAGE: byte := 2
  const MID_MESSAGE: byte := 3
  const HNA_MESSAGE: byte := 4

  const OLSR_PKT_HEADER_SIZE: nat := 4
  const OLSR_MSG_HEADER_SIZE: nat := 12

  /** An integer converted to uint32_t. */
  function ToU32(x: int): u32
  {
    x % 0x1_0000_0000
  }

  /** An integer converted to uint16_t. */
  function ToU16(x: int): u16
  {
    x % 0x1_0000
  }

  lemma {:induction false} ToU32Small(x: int)
    requires 0 <= x < 0x1_0000_0000
    ensures ToU32(x) == x
  {
  }

  lemma {:induction false} ToU16Small(x: int)
    requires 0 <= x < 0x1_0000
    ensures ToU16(x) == x
  {
  }

  /** Adding to a uint32_t wraps the sum, whatever was wrapped before. */
  lemma ToU32Add(a: int, b: int)
    ensures ToU32(ToU32(a) + b) == ToU32(a + b)
  {
    var q := a / 0x1_0000_0000;
    assert a + b == (ToU32(a) + b) + q * 0x1_0000_0000;
  }

  /** A uint32_t narrowed to uint16_t keeps the low 16 bits of the original. */
  lemma ToU16OfToU32(x: int)
    ensures ToU16(ToU32(x)) == ToU16(x)
  {
    var q := x / 0x1_0000_0000;
    assert x == ToU32(x) + (q * 0x1_0000) * 0x1_0000;
  }

  // ---------------- Packet header ----------------

  datatype PacketHeaderValue = PacketHeaderValue(packetLength: u16, packetSequenceNumber: u16)

  function EncodePacketHeader(p: PacketHeaderValue): (s: seq<byte>)
    ensures |s| == OLSR_PKT_HEADER_SIZE
  {
    HtonU16(p.packetLength) + HtonU16(p.packetSequenceNumber)
  }

  function DecodePacketHeader(data: seq<byte>, i: nat): PacketHeaderValue
    requires i + OLSR_PKT_HEADER_SIZE <= |data|
  {
    PacketHeaderValue(NtohU16(data, i), NtohU16(data, i + 2))
  }

  lemma {:induction false} PacketHeaderRoundTrip(data: seq<byte>, i: nat, p: PacketHeaderValue)
    requires At(data, i, EncodePacketHeader(p))
    ensures i + OLSR_PKT_HEADER_SIZE <= |data| && DecodePacketHeader(data, i) == p
  {
    AtConcat(data, i, HtonU16(p.packetLength), HtonU16(p.packetSequenceNumber));
    NtohU16At(data, i, p.packetLength);
    NtohU16At(data, i + 2, p.packetSequenceNumber);
  }

  /** Every four bytes are the encoding of the header read from them. */
  lemma {:induction false} PacketHeaderBytesRoundTrip(data: seq<byte>, i: nat)
    requires i + OLSR_PKT_HEADER_SIZE <= |data|
    ensures EncodePacketHeader(DecodePacketHeader(data, i)) == data[i..i + OLSR_PKT_HEADER_SIZE]
  {
    HtonNtohU16(data, i);
    HtonNtohU16(data, i + 2);
    assert data[i..i + 4] == data[i..i + 2] + data[i + 2..i + 4];
  }

  // ---------------- Address lists ----------------

  /** Addresses written one after another, each as a network-order u32. */
  function EncodeAddresses(addrs: seq<Ipv4Address>): (s: seq<byte>)
    ensures |s| == 4 * |addrs|
  {
    if addrs == [] then [] else EncodeAddresses(addrs[..|addrs| - 1]) + HtonU32(addrs[|addrs| - 1])
  }

  /** n addresses read one after another from position i. */
  function ReadAddresses(data: seq<byte>, i: nat, n: nat): (addrs: seq<Ipv4Address>)
    requires i + 4 * n <= |data|
    ensures |addrs| == n
  {
    if n == 0 then [] else ReadAddresses(data, i, n - 1) + [NtohU32(data, i + 4 * (n - 1))]
  }

  lemma {:induction false} AddressesRoundTrip(data: seq<byte>, i: nat, addrs: seq<Ipv4Address>)
    requires At(data, i, EncodeAddresses(addrs))
    ensures i + 4 * |addrs| <= |data| && ReadAddresses(data, i, |addrs|) == addrs
  {
    if addrs != [] {
      var n := |addrs|;
      AtConcat(data, i, EncodeAddresses(addrs[..n - 1]), HtonU32(addrs[n - 1]));
      AddressesRoundTrip(data, i, addrs[..n - 1]);
      NtohU32At(data, i + 4 * (n - 1), addrs[n - 1]);
      assert addrs == addrs[..n - 1] + [addrs[n - 1]];
    }
  }

  lemma {:induction false} AddressBytesRoundTrip(data: seq<byte>, i: nat, n: nat)
    requires i + 4 * n <= |data|
    ensures EncodeAddresses(ReadAddresses(data, i, n)) == data[i..i + 4 * n]
  {
    if n > 0 {
      var j := i + 4 * (n - 1);
      var r := ReadAddresses(data, i, n);
      assert r[..n - 1] == ReadAddresses(data, i, n - 1) && r[n - 1] == NtohU32(data, j);
      assert EncodeAddresses(r) == EncodeAddresses(r[..n - 1]) + HtonU32(r[n - 1]);
      AddressBytesRoundTrip(data, i, n - 1);
      HtonNtohU32(data, j);
      SlicesJoin(data, i, j, i + 4 * n, EncodeAddresses(r[..n - 1]), HtonU32(r[n - 1]));
    }
  }

  // ---------------- MID ----------------

  datatype MidValue = MidValue(interfaceAddresses: seq<Ipv4Address>)

  function MidSize(m: MidValue): nat
  {
    4 * |m.interfaceAddresses|
  }

  function EncodeMid(m: MidValue): (s: seq<byte>)
    ensures |s| == MidSize(m)
  {
    EncodeAddresses(m.interfaceAddresses)
  }

  /** What Mid::Deserialize accepts: a length that is a multiple of 4, and
      that many bytes to read. */
  predicate MidFits(data: seq<byte>, i: nat, messageSize: u32)
  {
    messageSize % 4 == 0 && i + messageSize <= |data|
  }

  function DecodeMid(data: seq<byte>, i: nat, messageSize: u32): (m: MidValue)
    requires MidFits(data, i, messageSize)
    ensures MidSize(m) == messageSize
  {
    MidValue(ReadAddresses(data, i, messageSize / 4))
  }

  lemma {:induction false} MidRoundTrip(data: seq<byte>, i: nat, m: MidValue)
    requires At(data, i, EncodeMid(m)) && MidSize(m) < 0x1_0000_0000
    ensures MidFits(data, i, MidSize(m)) && DecodeMid(data, i, MidSize(m)) == m
  {
    AddressesRoundTrip(data, i, m.interfaceAddresses);
  }

  lemma {:induction false} MidBytesRoundTrip(data: seq<byte>, i: nat, messageSize: u32)
    requires MidFits(data, i, messageSize)
    ensures EncodeMid(DecodeMid(data, i, messageSize)) == data[i..i + messageSize]
  {
    AddressBytesRoundTrip(data, i, messageSize / 4);
  }

  // ---------------- HELLO ----------------

  datatype LinkMessage = LinkMessage(linkCode: byte, neighborInterfaceAddresses: seq<Ipv4Address>)

  datatype HelloValue = HelloValue(
    hTime: byte,
    willingness: byte,
    linkMessages: seq<LinkMessage>,
    position: Vector)

  /** The size a link message counts for: its 4-byte head and its addresses. */
  function LinkMessageSize(lm: LinkMessage): nat
  {
    4 + 4 * |lm.neighborInterfaceAddresses|
  }

  function LinkMessagesSize(lms: seq<LinkMessage>): nat
  {
    if lms == [] then 0 else LinkMessageSize(lms[0]) + LinkMessagesSize(lms[1..])
  }

  /** Hello::GetSerializedSize: the 4-byte head and the link messages; the
      24 bytes of position written after them are not counted. */
  function HelloSize(h: HelloValue): nat
  {
    4 + LinkMessagesSize(h.linkMessages)
  }

  /** Link code, a reserved zero byte, the size field (truncated to 16 bits)
      and the addresses. */
  function EncodeLinkMessage(lm: LinkMessage): (s: seq<byte>)
    ensures |s| == LinkMessageSize(lm)
  {
    [lm.linkCode, 0] + HtonU16(ToU16(LinkMessageSize(lm))) + EncodeAddresses(lm.neighborInterfaceAddresses)
  }

  function EncodeLinkMessages(lms: seq<LinkMessage>): (s: seq<byte>)
    ensures |s| == LinkMessagesSize(lms)
  {
    if lms == [] then [] else EncodeLinkMessage(lms[0]) + EncodeLinkMessages(lms[1..])
  }

  /** Hello::Serialize. The encoding is 24 bytes longer than HelloSize says. */
  function EncodeHello(h: HelloValue): (s: seq<byte>)
    ensures |s| == HelloSize(h) + 24
  {
    U16Le(0) + [h.hTime, h.willingness] + EncodeLinkMessages(h.linkMessages) +
    HtonU64(h.position.x) + HtonU64(h.position.y) + HtonU64(h.position.z)
  }

  lemma {:induction false} LinkMessagesAppend(lms: seq<LinkMessage>, lm: LinkMessage)
    ensures LinkMessagesSize(lms + [lm]) == LinkMessagesSize(lms) + LinkMessageSize(lm)
    ensures EncodeLinkMessages(lms + [lm]) == EncodeLinkMessages(lms) + EncodeLinkMessage(lm)
  {
    if lms == [] {
      assert lms + [lm] == [lm];
      assert [lm][1..] == [];
    } else {
      assert (lms + [lm])[1..] == lms[1..] + [lm];
      LinkMessagesAppend(lms[1..], lm);
    }
  }

  /** No link message counts for more than the whole list. */
  lemma {:induction false} LinkMessageSizeBound(lms: seq<LinkMessage>, lm: LinkMessage)
    requires lm in lms
    ensures LinkMessageSize(lm) <= LinkMessagesSize(lms)
  {
    if lms[0] != lm {
      assert lm in lms[1..];
      LinkMessageSizeBound(lms[1..], lm);
    }
  }

  /** How many addresses the reading loop takes for a size field lmSize: it
      runs while n < (lmSize - 4) / 4 in C int arithmetic, which truncates
      toward zero, so a size below 8 gives none. */
  function AddressCount(lmSize: u16): nat
  {
    if lmSize < 4 then 0 else (lmSize - 4) / 4
  }

  /** The HELLO reading loop ends inside data: starting at position i with
      `remaining` bytes of link messages left, each step reads a 4-byte head
      and AddressCount addresses, and subtracts the size field from the
      uint32_t counter, until the counter is 0. */
  predicate LinkChainFits(data: seq<byte>, i: nat, remaining: u32)
    decreases |data| - i
  {
    i <= |data| && (remaining == 0 ||
    (i + 4 <= |data| &&
     var lmSize := NtohU16(data, i + 2);
     var next := i + 4 + 4 * AddressCount(lmSize);
     next <= |data| && LinkChainFits(data, next, ToU32(remaining - lmSize))))
  }

  /** The link messages the loop reads, and the position it stops at. */
  datatype LinkParse = LinkParse(messages: seq<LinkMessage>, end: nat)

  function ParseLinkMessages(data: seq<byte>, i: nat, remaining: u32): (r: LinkParse)
    requires LinkChainFits(data, i, remaining)
    ensures i <= r.end <= |data|
    decreases |data| - i
  {
    if remaining == 0 then LinkParse([], i)
    else
      var lmSize := NtohU16(data, i + 2);
      var n := AddressCount(lmSize);
      var lm := LinkMessage(data[i], ReadAddresses(data, i + 4, n));
      var rest := ParseLinkMessages(data, i + 4 + 4 * n, ToU32(remaining - lmSize));
      LinkParse([lm] + rest.messages, rest.end)
  }

  /** One turn of the reading loop, as the loop body sees it: the link
      messages read so far and those still to be read make up the same list,
      and the loop stops at the same position. */
  lemma {:induction false} ParseLinkMessagesStep(data: seq<byte>, i: nat, remaining: u32, done: seq<LinkMessage>, all: seq<LinkMessage>)
    requires LinkChainFits(data, i, remaining) && remaining != 0
    requires all == done + ParseLinkMessages(data, i, remaining).messages
    ensures i + 4 <= |data|
    ensures var lmSize := NtohU16(data, i + 2);
            var next := i + 4 + 4 * AddressCount(lmSize);
            var rem := ToU32(remaining - lmSize);
            next <= |data| && LinkChainFits(data, next, rem) &&
            all == done + [LinkMessage(data[i], ReadAddresses(data, i + 4, AddressCount(lmSize)))] +
                   ParseLinkMessages(data, next, rem).messages &&
            ParseLinkMessages(data, i, remaining).end == ParseLinkMessages(data, next, rem).end
  {
    var lmSize := NtohU16(data, i + 2);
    var next := i + 4 + 4 * AddressCount(lmSize);
    var rem := ToU32(remaining - lmSize);
    var lm := LinkMessage(data[i], ReadAddresses(data, i + 4, AddressCount(lmSize)));
    var rest := ParseLinkMessages(data, next, rem).messages;
    assert ParseLinkMessages(data, i, remaining).messages == [lm] + rest;
    assert done + ([lm] + rest) == done + [lm] + rest;
  }

  /** What Hello::Deserialize needs: a length of at least 4, a link-message
      chain that brings the counter to 0, and the 24 position bytes after it. */
  predicate HelloFits(data: seq<byte>, i: nat, messageSize: u32)
  {
    messageSize >= 4 && i + 4 <= |data| &&
    LinkChainFits(data, i + 4, messageSize - 4) &&
    ParseLinkMessages(data, i + 4, messageSize - 4).end + 24 <= |data|
  }

  function DecodeHello(data: seq<byte>, i: nat, messageSize: u32): HelloValue
    requires HelloFits(data, i, messageSize)
  {
    var parsed := ParseLinkMessages(data, i + 4, messageSize - 4);
    var end := parsed.end;
    HelloValue(data[i + 2], data[i + 3], parsed.messages,
               Vector(NtohU64(data, end), NtohU64(data, end + 8), NtohU64(data, end + 16)))
  }

  /** Where the fields of an encoded link message sit. */
  lemma {:induction false} LinkMessageAt(data: seq<byte>, i: nat, lm: LinkMessage)
    requires At(data, i, EncodeLinkMessage(lm)) && LinkMessageSize(lm) < 0x1_0000
    ensures i + LinkMessageSize(lm) <= |data|
    ensures data[i] == lm.linkCode && NtohU16(data, i + 2) == LinkMessageSize(lm)
    ensures ReadAddresses(data, i + 4, |lm.neighborInterfaceAddresses|) == lm.neighborInterfaceAddresses
  {
    var addrs := lm.neighborInterfaceAddresses;
    var size := ToU16(LinkMessageSize(lm));
    AtConcat(data, i, [lm.linkCode, 0] + HtonU16(size), EncodeAddresses(addrs));
    AddressesRoundTrip(data, i + 4, addrs);
    AtConcat(data, i, [lm.linkCode, 0], HtonU16(size));
    NtohU16At(data, i + 2, size);
    AtPair(data, i, lm.linkCode, 0);
  }

  /** The fields of link message lm can be read at position i. */
  predicate LinkMessageFieldsAt(data: seq<byte>, i: nat, lm: LinkMessage)
  {
    i + LinkMessageSize(lm) <= |data| && data[i] == lm.linkCode &&
    NtohU16(data, i + 2) == LinkMessageSize(lm) &&
    ReadAddresses(data, i + 4, |lm.neighborInterfaceAddresses|) == lm.neighborInterfaceAddresses
  }

  /** The fields of the link messages lms can be read one after another
      from position i. */
  predicate LinkMessagesFieldsAt(data: seq<byte>, i: nat, lms: seq<LinkMessage>)
    decreases |lms|
  {
    if lms == [] then i <= |data|
    else
      LinkMessageFieldsAt(data, i, lms[0]) &&
      LinkMessagesFieldsAt(data, i + LinkMessageSize(lms[0]), lms[1..])
  }

  lemma {:induction false} LinkMessagesAt(data: seq<byte>, i: nat, lms: seq<LinkMessage>)
    requires At(data, i, EncodeLinkMessages(lms))
    requires forall lm | lm in lms :: LinkMessageSize(lm) < 0x1_0000
    ensures LinkMessagesFieldsAt(data, i, lms)
    decreases |lms|
  {
    if lms != [] {
      AtConcat(data, i, EncodeLinkMessage(lms[0]), EncodeLinkMessages(lms[1..]));
      LinkMessageAt(data, i, lms[0]);
      LinkMessagesAt(data, i + LinkMessageSize(lms[0]), lms[1..]);
    }
  }

  /** One turn of the HELLO reading loop: the first link message, whose
      fields lie at i, is read, and the loop goes on with the rest. */
  lemma {:induction false} LinkChainStep(data: seq<byte>, i: nat, lms: seq<LinkMessage>, total: nat, restTotal: nat)
    requires lms != [] && LinkMessageFieldsAt(data, i, lms[0])
    requires total == LinkMessageSize(lms[0]) + restTotal < 0x1_0000_0000
    requires LinkChainFits(data, i + LinkMessageSize(lms[0]), restTotal)
    requires ParseLinkMessages(data, i + LinkMessageSize(lms[0]), restTotal).messages == lms[1..]
    requires ParseLinkMessages(data, i + LinkMessageSize(lms[0]), restTotal).end == i + total
    ensures LinkChainFits(data, i, total)
    ensures ParseLinkMessages(data, i, total).messages == lms
    ensures ParseLinkMessages(data, i, total).end == i + total
  {
    var lm := lms[0];
    var n := AddressCount(LinkMessageSize(lm));
    assert n == |lm.neighborInterfaceAddresses| && i + 4 + 4 * n == i + LinkMessageSize(lm);
    ToU32Small(restTotal);
    assert lms == [lm] + lms[1..];
  }

  /** Link messages laid out one after another are read back by the HELLO
      loop, and the counter reaches 0 exactly at their end. */
  lemma {:induction false} LinkChainRoundTrip(data: seq<byte>, i: nat, lms: seq<LinkMessage>)
    requires LinkMessagesFieldsAt(data, i, lms)
    requires LinkMessagesSize(lms) < 0x1_0000_0000
    ensures LinkChainFits(data, i, LinkMessagesSize(lms))
    ensures ParseLinkMessages(data, i, LinkMessagesSize(lms)).messages == lms
    ensures ParseLinkMessages(data, i, LinkMessagesSize(lms)).end == i + LinkMessagesSize(lms)
    decreases |lms|
  {
    if lms != [] {
      var size := LinkMessageSize(lms[0]);
      LinkChainRoundTrip(data, i + size, lms[1..]);
      LinkChainStep(data, i, lms, LinkMessagesSize(lms), LinkMessagesSize(lms[1..]));
    }
  }

  /** What the HELLO encoding needs to be read back: the counted size fits
      uint32_t and each link message's size fits its 16-bit field. */
  predicate HelloSizesFit(h: HelloValue)
  {
    HelloSize(h) < 0x1_0000_0000 &&
    forall lm | lm in h.linkMessages :: LinkMessageSize(lm) < 0x1_0000
  }

  /** Where the fields of an encoded HELLO body sit. */
  lemma {:induction false} HelloAt(data: seq<byte>, i: nat, h: HelloValue)
    requires At(data, i, EncodeHello(h))
    ensures i + 4 <= |data| && data[i + 2] == h.hTime && data[i + 3] == h.willingness
    ensures At(data, i + 4, EncodeLinkMessages(h.linkMessages))
    ensures var end := i + HelloSize(h);
            end + 24 <= |data| && NtohU64(data, end) == h.position.x &&
            NtohU64(data, end + 8) == h.position.y && NtohU64(data, end + 16) == h.position.z
  {
    var head := U16Le(0) + [h.hTime, h.willingness];
    var lms := EncodeLinkMessages(h.linkMessages);
    NtohU64TripleAt(data, i, head + lms, i + HelloSize(h), h.position.x, h.position.y, h.position.z);
    AtConcat(data, i, head, lms);
    AtConcat(data, i, U16Le(0), [h.hTime, h.willingness]);
    AtPair(data, i + 2, h.hTime, h.willingness);
  }

  /** Reading the fields of h where they lie gives back h. */
  lemma {:induction false} HelloFieldsDecode(data: seq<byte>, i: nat, h: HelloValue)
    requires i + 4 <= |data| && data[i + 2] == h.hTime && data[i + 3] == h.willingness
    requires LinkMessagesFieldsAt(data, i + 4, h.linkMessages) && HelloSize(h) < 0x1_0000_0000
    requires var end := i + HelloSize(h);
             end + 24 <= |data| && NtohU64(data, end) == h.position.x &&
             NtohU64(data, end + 8) == h.position.y && NtohU64(data, end + 16) == h.position.z
    ensures HelloFits(data, i, HelloSize(h)) && DecodeHello(data, i, HelloSize(h)) == h
  {
    LinkChainRoundTrip(data, i + 4, h.linkMessages);
    assert HelloSize(h) - 4 == LinkMessagesSize(h.linkMessages);
    var parsed := ParseLinkMessages(data, i + 4, HelloSize(h) - 4);
    assert parsed.messages == h.linkMessages && parsed.end == i + HelloSize(h);
  }

  lemma {:induction false} HelloRoundTrip(data: seq<byte>, i: nat, h: HelloValue)
    requires At(data, i, EncodeHello(h)) && HelloSizesFit(h)
    ensures HelloFits(data, i, HelloSize(h)) && DecodeHello(data, i, HelloSize(h)) == h
  {
    HelloAt(data, i, h);
    LinkMessagesAt(data, i + 4, h.linkMessages);
    HelloFieldsDecode(data, i, h);
  }

  // ---------------- TC ----------------

  datatype TcValue = TcValue(
    ansn: u16,
    neighborAddresses: seq<Ipv4Address>,
    position: Vector,
    helloInterval: u64)

  /** Tc::GetSerializedSize: head, addresses and four 64-bit fields. */
  function TcSize(t: TcValue): nat
  {
    4 + 4 * |t.neighborAddresses| + 32
  }

  /** Tc::Serialize: the 64-bit fields are written least significant byte
      first, unlike every other field of the format. */
  function EncodeTc(t: TcValue): (s: seq<byte>)
    ensures |s| == TcSize(t)
  {
    HtonU16(t.ansn) + HtonU16(0) + EncodeAddresses(t.neighborAddresses) +
    U64Le(t.position.x) + U64Le(t.position.y) + U64Le(t.position.z) + U64Le(t.helloInterval)
  }

  /** The address-region length Tc::Deserialize computes: messageSize minus
      GetSerializedSize() of the already cleared list, which is 36, as a
      uint32_t. */
  function TcAddressBytes(messageSize: u32): u32
  {
    ToU32(messageSize - 36)
  }

  /** What Tc::Deserialize needs: a length of at least 4, and, when the
      address region is a whole number of addresses, the bytes it reads. */
  predicate TcFits(data: seq<byte>, i: nat, messageSize: u32)
  {
    messageSize >= 4 && i + 4 <= |data| &&
    (TcAddressBytes(messageSize) % 4 == 0 ==>
       i + 4 + 4 * (TcAddressBytes(messageSize) / 4) + 32 <= |data|)
  }

  /** The outcome of Tc::Deserialize: it stops with return value 0 after
      reading the ansn when the length is wrong. */
  datatype TcResult = TcLengthError(ansn: u16) | TcDecoded(tc: TcValue)

  lemma {:induction false} TcAddressBytesMod4(messageSize: u32)
    ensures TcAddressBytes(messageSize) % 4 == messageSize % 4
  {
    if messageSize < 36 {
      assert TcAddressBytes(messageSize) == messageSize - 36 + 0x1_0000_0000;
    }
  }

  /** TC decoding fails exactly when the length is not a multiple of 4. */
  function DecodeTc(data: seq<byte>, i: nat, messageSize: u32): (r: TcResult)
    requires TcFits(data, i, messageSize)
    ensures r.TcLengthError? <==> messageSize % 4 != 0
    ensures (if r.TcLengthError? then r.ansn else r.tc.ansn) == NtohU16(data, i)
  {
    TcAddressBytesMod4(messageSize);
    var ansn := NtohU16(data, i);
    var size := TcAddressBytes(messageSize);
    if size % 4 != 0 then TcLengthError(ansn)
    else
      var n := size / 4;
      var j := i + 4 + 4 * n;
      TcDecoded(TcValue(ansn, ReadAddresses(data, i + 4, n),
                        Vector(LeU64(data, j), LeU64(data, j + 8), LeU64(data, j + 16)),
                        LeU64(data, j + 24)))
  }

  /** A length below 36 that is a multiple of 4 wraps around: the decoder
      then sets out to read over 2^30 addresses. */
  lemma {:induction false} TcShortLengthWraps(messageSize: u32)
    requires messageSize < 36 && messageSize % 4 == 0
    ensures TcAddressBytes(messageSize) / 4 >= 0x4000_0000 - 9
  {
    assert TcAddressBytes(messageSize) == messageSize - 36 + 0x1_0000_0000;
  }

  /** Where the fields of an encoded TC body sit. */
  lemma {:induction false} TcAt(data: seq<byte>, i: nat, t: TcValue)
    requires At(data, i, EncodeTc(t))
    ensures i + TcSize(t) <= |data| && NtohU16(data, i) == t.ansn
    ensures ReadAddresses(data, i + 4, |t.neighborAddresses|) == t.neighborAddresses
    ensures var j := i + 4 + 4 * |t.neighborAddresses|;
            LeU64(data, j) == t.position.x && LeU64(data, j + 8) == t.position.y &&
            LeU64(data, j + 16) == t.position.z && LeU64(data, j + 24) == t.helloInterval
  {
    var s1 := HtonU16(t.ansn) + HtonU16(0);
    var addrs := EncodeAddresses(t.neighborAddresses);
    var p := t.position;
    var j := i + 4 + 4 * |t.neighborAddresses|;
    assert At(data, i, s1 + addrs) && j + 32 <= |data| &&
           LeU64(data, j) == p.x && LeU64(data, j + 8) == p.y &&
           LeU64(data, j + 16) == p.z && LeU64(data, j + 24) == t.helloInterval by {
      LeU64QuadAt(data, i, s1 + addrs, j, p.x, p.y, p.z, t.helloInterval);
    }
    assert At(data, i + 4, addrs) && NtohU16(data, i) == t.ansn by {
      AtConcat(data, i, s1, addrs);
      AtConcat(data, i, HtonU16(t.ansn), HtonU16(0));
      NtohU16At(data, i, t.ansn);
    }
    AddressesRoundTrip(data, i + 4, t.neighborAddresses);
  }

  lemma {:induction false} TcRoundTrip(data: seq<byte>, i: nat, t: TcValue)
    requires At(data, i, EncodeTc(t)) && TcSize(t) < 0x1_0000_0000
    ensures TcFits(data, i, TcSize(t)) && DecodeTc(data, i, TcSize(t)) == TcDecoded(t)
  {
    TcAt(data, i, t);
    TcFieldsDecode(data, i, t);
  }

  /** Reading the fields of t where they lie gives back t. */
  lemma {:induction false} TcFieldsDecode(data: seq<byte>, i: nat, t: TcValue)
    requires i + TcSize(t) <= |data| && TcSize(t) < 0x1_0000_0000 && NtohU16(data, i) == t.ansn
    requires ReadAddresses(data, i + 4, |t.neighborAddresses|) == t.neighborAddresses
    requires var j := i + 4 + 4 * |t.neighborAddresses|;
             LeU64(data, j) == t.position.x && LeU64(data, j + 8) == t.position.y &&
             LeU64(data, j + 16) == t.position.z && LeU64(data, j + 24) == t.helloInterval
    ensures TcFits(data, i, TcSize(t)) && DecodeTc(data, i, TcSize(t)) == TcDecoded(t)
  {
    var n := |t.neighborAddresses|;
    ToU32Small(TcSize(t) - 36);
    assert TcAddressBytes(TcSize(t)) == 4 * n;
    assert (4 * n) % 4 == 0 && (4 * n) / 4 == n;
  }

  // ---------------- HNA ----------------

  datatype HnaAssociation = HnaAssociation(address: Ipv4Address, mask: Ipv4Mask)

  datatype HnaValue = HnaValue(associations: seq<HnaAssociation>)

  function HnaSize(h: HnaValue): nat
  {
    8 * |h.associations|
  }

  function EncodeAssociations(assocs: seq<HnaAssociation>): (s: seq<byte>)
    ensures |s| == 8 * |assocs|
  {
    if assocs == [] then []
    else
      var a := assocs[|assocs| - 1];
      EncodeAssociations(assocs[..|assocs| - 1]) + HtonU32(a.address) + HtonU32(a.mask)
  }

  function EncodeHna(h: HnaValue): (s: seq<byte>)
    ensures |s| == HnaSize(h)
  {
    EncodeAssociations(h.associations)
  }

  function ReadAssociations(data: seq<byte>, i: nat, n: nat): (assocs: seq<HnaAssociation>)
    requires i + 8 * n <= |data|
    ensures |assocs| == n
  {
    if n == 0 then []
    else
      var j := i + 8 * (n - 1);
      ReadAssociations(data, i, n - 1) + [HnaAssociation(NtohU32(data, j), NtohU32(data, j + 4))]
  }

  /** What Hna::Deserialize accepts: a length that is a multiple of 8, and
      that many bytes to read. */
  predicate HnaFits(data: seq<byte>, i: nat, messageSize: u32)
  {
    messageSize % 8 == 0 && i + messageSize <= |data|
  }

  function DecodeHna(data: seq<byte>, i: nat, messageSize: u32): (h: HnaValue)
    requires HnaFits(data, i, messageSize)
    ensures HnaSize(h) == messageSize
  {
    HnaValue(ReadAssociations(data, i, messageSize / 8))
  }

  lemma {:induction false} AssociationsRoundTrip(data: seq<byte>, i: nat, assocs: seq<HnaAssociation>)
    requires At(data, i, EncodeAssociations(assocs))
    ensures i + 8 * |assocs| <= |data| && ReadAssociations(data, i, |assocs|) == assocs
  {
    if assocs != [] {
      var n := |assocs|;
      var a := assocs[n - 1];
      AtConcat(data, i, EncodeAssociations(assocs[..n - 1]) + HtonU32(a.address), HtonU32(a.mask));
      AtConcat(data, i, EncodeAssociations(assocs[..n - 1]), HtonU32(a.address));
      AssociationsRoundTrip(data, i, assocs[..n - 1]);
      NtohU32At(data, i + 8 * (n - 1), a.address);
      NtohU32At(data, i + 8 * (n - 1) + 4, a.mask);
      assert assocs == assocs[..n - 1] + [a];
    }
  }

  lemma {:induction false} AssociationBytesRoundTrip(data: seq<byte>, i: nat, n: nat)
    requires i + 8 * n <= |data|
    ensures EncodeAssociations(ReadAssociations(data, i, n)) == data[i..i + 8 * n]
  {
    if n > 0 {
      var r := ReadAssociations(data, i, n);
      var j := i + 8 * (n - 1);
      assert r[..n - 1] == ReadAssociations(data, i, n - 1);
      assert r[n - 1] == HnaAssociation(NtohU32(data, j), NtohU32(data, j + 4));
      assert EncodeAssociations(r) ==
             EncodeAssociations(r[..n - 1]) + HtonU32(r[n - 1].address) + HtonU32(r[n - 1].mask);
      AssociationBytesRoundTrip(data, i, n - 1);
      HtonNtohU32(data, j);
      HtonNtohU32(data, j + 4);
      var last := HtonU32(r[n - 1].address) + HtonU32(r[n - 1].mask);
      SlicesJoin(data, j, j + 4, j + 8, HtonU32(r[n - 1].address), HtonU32(r[n - 1].mask));
      SlicesJoin(data, i, j, j + 8, EncodeAssociations(r[..n - 1]), last);
      assert EncodeAssociations(r) == EncodeAssociations(r[..n - 1]) + last;
    }
  }

  lemma {:induction false} HnaRoundTrip(data: seq<byte>, i: nat, h: HnaValue)
    requires At(data, i, EncodeHna(h)) && HnaSize(h) < 0x1_0000_0000
    ensures HnaFits(data, i, HnaSize(h)) && DecodeHna(data, i, HnaSize(h)) == h
  {
    AssociationsRoundTrip(data, i, h.associations);
  }

  lemma {:induction false} HnaBytesRoundTrip(data: seq<byte>, i: nat, messageSize: u32)
    requires HnaFits(data, i, messageSize)
    ensures EncodeHna(DecodeHna(data, i, messageSize)) == data[i..i + messageSize]
  {
    AssociationBytesRoundTrip(data, i, messageSize / 8);
  }

  // ---------------- Message header ----------------

  datatype Body =
    | MidBody(mid: MidValue)
    | HelloBody(hello: HelloValue)
    | TcBody(tc: TcValue)
    | HnaBody(hna: HnaValue)

  function MessageType(b: Body): byte
  {
    match b
    case MidBody(_) => MID_MESSAGE
    case HelloBody(_) => HELLO_MESSAGE
    case TcBody(_) => TC_MESSAGE
    case HnaBody(_) => HNA_MESSAGE
  }

  function BodySize(b: Body): nat
  {
    match b
    case MidBody(m) => MidSize(m)
    case HelloBody(h) => HelloSize(h)
    case TcBody(t) => TcSize(t)
    case HnaBody(h) => HnaSize(h)
  }

  function EncodeBody(b: Body): (s: seq<byte>)
    ensures |s| == BodySize(b) + (if b.HelloBody? then 24 else 0)
  {
    match b
    case MidBody(m) => EncodeMid(m)
    case HelloBody(h) => EncodeHello(h)
    case TcBody(t) => EncodeTc(t)
    case HnaBody(h) => EncodeHna(h)
  }

  /** The message header fields other than the type. */
  datatype HeaderFields = HeaderFields(
    vTime: byte,
    messageSize: u16,
    originatorAddress: Ipv4Address,
    timeToLive: byte,
    hopCount: byte,
    messageSequenceNumber: u16)

  datatype Message = Message(fields: HeaderFields, body: Body)

  /** MessageHeader::GetSerializedSize: 12 and the body's size. */
  function MessageSize(m: Message): nat
  {
    OLSR_MSG_HEADER_SIZE + BodySize(m.body)
  }

  /** The 12 header bytes, with a given value in the size field. */
  function EncodeFields(messageType: byte, size: u16, f: HeaderFields): (s: seq<byte>)
    ensures |s| == OLSR_MSG_HEADER_SIZE
  {
    [messageType, f.vTime] + HtonU16(size) + HtonU32(f.originatorAddress) +
    [f.timeToLive, f.hopCount] + HtonU16(f.messageSequenceNumber)
  }

  /** MessageHeader::Serialize: the size field holds the computed size,
      truncated to 16 bits, never the stored one. For HELLO the bytes run 24
      past what that size says. */
  function EncodeMessage(m: Message): (s: seq<byte>)
    ensures |s| == MessageSize(m) + (if m.body.HelloBody? then 24 else 0)
    ensures s[0] == MessageType(m.body)
  {
    EncodeFields(MessageType(m.body), ToU16(MessageSize(m)), m.fields) + EncodeBody(m.body)
  }

  function DecodeFields(data: seq<byte>, i: nat): HeaderFields
    requires i + OLSR_MSG_HEADER_SIZE <= |data|
  {
    HeaderFields(data[i + 1], NtohU16(data, i + 2), NtohU32(data, i + 4),
                 data[i + 8], data[i + 9], NtohU16(data, i + 10))
  }

  lemma {:induction false} FieldsRoundTrip(data: seq<byte>, i: nat, messageType: byte, size: u16, f: HeaderFields)
    requires At(data, i, EncodeFields(messageType, size, f))
    ensures i + OLSR_MSG_HEADER_SIZE <= |data|
    ensures data[i] == messageType && DecodeFields(data, i) == f.(messageSize := size)
  {
    var s1 := [messageType, f.vTime];
    var s2 := s1 + HtonU16(size);
    var s3 := s2 + HtonU32(f.originatorAddress);
    var s4 := s3 + [f.timeToLive, f.hopCount];
    assert At(data, i, s4) && NtohU16(data, i + 10) == f.messageSequenceNumber by {
      AtConcat(data, i, s4, HtonU16(f.messageSequenceNumber));
      NtohU16At(data, i + 10, f.messageSequenceNumber);
    }
    assert At(data, i, s3) && data[i + 8] == f.timeToLive && data[i + 9] == f.hopCount by {
      AtConcat(data, i, s3, [f.timeToLive, f.hopCount]);
      AtPair(data, i + 8, f.timeToLive, f.hopCount);
    }
    assert At(data, i, s2) && NtohU32(data, i + 4) == f.originatorAddress by {
      AtConcat(data, i, s2, HtonU32(f.originatorAddress));
      NtohU32At(data, i + 4, f.originatorAddress);
    }
    AtConcat(data, i, s1, HtonU16(size));
    NtohU16At(data, i + 2, size);
    AtPair(data, i, messageType, f.vTime);
  }

  /** The body length handed to the body decoder: the size field minus 12,
      as a uint32_t. */
  function BodyLength(data: seq<byte>, i: nat): u32
    requires i + OLSR_MSG_HEADER_SIZE <= |data|
  {
    ToU32(NtohU16(data, i + 2) - OLSR_MSG_HEADER_SIZE)
  }

  /** What the body decoder of the given type needs. */
  predicate BodyFits(messageType: byte, data: seq<byte>, j: nat, messageSize: u32)
  {
    if messageType == MID_MESSAGE then MidFits(data, j, messageSize)
    else if messageType == HELLO_MESSAGE then HelloFits(data, j, messageSize)
    else if messageType == TC_MESSAGE then TcFits(data, j, messageSize)
    else if messageType == HNA_MESSAGE then HnaFits(data, j, messageSize)
    else false
  }

  /** What MessageHeader::Deserialize needs: the 12 header bytes, a type
      from HELLO to HNA, and what that type's body decoder needs. */
  predicate MessageFits(data: seq<byte>, i: nat)
  {
    i + OLSR_MSG_HEADER_SIZE <= |data| &&
    HELLO_MESSAGE <= data[i] <= HNA_MESSAGE &&
    BodyFits(data[i], data, i + OLSR_MSG_HEADER_SIZE, BodyLength(data, i))
  }

  datatype BodyResult = Parsed(body: Body) | TcError(ansn: u16)

  function DecodeBody(messageType: byte, data: seq<byte>, j: nat, messageSize: u32): (r: BodyResult)
    requires BodyFits(messageType, data, j, messageSize)
    ensures r.Parsed? ==> MessageType(r.body) == messageType
    ensures r.TcError? <==> messageType == TC_MESSAGE && messageSize % 4 != 0
  {
    if messageType == MID_MESSAGE then Parsed(MidBody(DecodeMid(data, j, messageSize)))
    else if messageType == HELLO_MESSAGE then Parsed(HelloBody(DecodeHello(data, j, messageSize)))
    else if messageType == TC_MESSAGE then
      match DecodeTc(data, j, messageSize)
      case TcLengthError(ansn) => TcError(ansn)
      case TcDecoded(t) => Parsed(TcBody(t))
    else Parsed(HnaBody(DecodeHna(data, j, messageSize)))
  }

  /** What MessageHeader::Deserialize reads: the header fields, the body
      outcome, and its return value, 12 plus what the body decoder returned
      (0 for a TC length error, the body length otherwise). */
  datatype MessageResult = MessageResult(fields: HeaderFields, outcome: BodyResult, size: u32)

  function DecodeMessage(data: seq<byte>, i: nat): (r: MessageResult)
    requires MessageFits(data, i)
  {
    var j := i + OLSR_MSG_HEADER_SIZE;
    var len := BodyLength(data, i);
    var body := DecodeBody(data[i], data, j, len);
    MessageResult(DecodeFields(data, i), body, ToU32(OLSR_MSG_HEADER_SIZE + (if body.TcError? then 0 else len)))
  }

  /** Deserialize returns the size field it read, except after a TC length
      error, where it returns 12. */
  lemma {:induction false} DeserializeReturnsSizeField(data: seq<byte>, i: nat)
    requires MessageFits(data, i)
    ensures DecodeMessage(data, i).outcome.Parsed? ==> DecodeMessage(data, i).size == NtohU16(data, i + 2)
    ensures DecodeMessage(data, i).outcome.TcError? ==> DecodeMessage(data, i).size == OLSR_MSG_HEADER_SIZE
  {
    SizeFieldWraps(NtohU16(data, i + 2));
  }

  /** Taking 12 off a 16-bit size and adding it back, both modulo 2^32,
      gives the size again, also when the size is below 12. */
  lemma SizeFieldWraps(m: u16)
    ensures ToU32(OLSR_MSG_HEADER_SIZE + ToU32(m - OLSR_MSG_HEADER_SIZE)) == m
  {
    if m < OLSR_MSG_HEADER_SIZE {
      assert ToU32(m - OLSR_MSG_HEADER_SIZE) == m as int - OLSR_MSG_HEADER_SIZE + 0x1_0000_0000;
    }
  }

  /** Read back, a message gives its fields with the computed size in place
      of the stored one, its body, and that size as return value. */
  lemma {:induction false} MessageRoundTrip(data: seq<byte>, i: nat, m: Message)
    requires At(data, i, EncodeMessage(m)) && MessageSize(m) < 0x1_0000
    ensures MessageFits(data, i)
    ensures DecodeMessage(data, i) ==
            MessageResult(m.fields.(messageSize := MessageSize(m)), Parsed(m.body), MessageSize(m))
  {
    var size := MessageSize(m);
    var j := i + OLSR_MSG_HEADER_SIZE;
    var head := EncodeFields(MessageType(m.body), ToU16(size), m.fields);
    AtConcat(data, i, head, EncodeBody(m.body));
    FieldsRoundTrip(data, i, MessageType(m.body), ToU16(size), m.fields);
    ToU16Small(size);
    ToU32Small(size - OLSR_MSG_HEADER_SIZE);
    ToU32Small(size);
    assert BodyLength(data, i) == BodySize(m.body);
    BodyRoundTrip(data, j, m.body);
  }

  /** Each body is read back by the decoder of its own type. */
  lemma {:induction false} BodyRoundTrip(data: seq<byte>, j: nat, b: Body)
    requires At(data, j, EncodeBody(b)) && BodySize(b) < 0x1_0000
    ensures BodyFits(MessageType(b), data, j, BodySize(b))
    ensures DecodeBody(MessageType(b), data, j, BodySize(b)) == Parsed(b)
  {
    match b
    case MidBody(mid) =>
      MidRoundTrip(data, j, mid);
    case HelloBody(h) =>
      forall lm | lm in h.linkMessages
        ensures LinkMessageSize(lm) < 0x1_0000
      {
        LinkMessageSizeBound(h.linkMessages, lm);
      }
      HelloRoundTrip(data, j, h);
    case TcBody(t) =>
      TcRoundTrip(data, j, t);
    case HnaBody(h) =>
      HnaRoundTrip(data, j, h);
  }

  /** A HELLO message's size field falls 24 bytes short of its encoding. */
  lemma {:induction false} HelloSizeFieldUndercounts(m: Message)
    requires m.body.HelloBody? && MessageSize(m) < 0x1_0000
    ensures |EncodeMessage(m)| >= OLSR_MSG_HEADER_SIZE
    ensures NtohU16(EncodeMessage(m), 2) + 24 == |EncodeMessage(m)|
  {
    var size := ToU16(MessageSize(m));
    var f := EncodeFields(MessageType(m.body), size, m.fields);
    var s := EncodeMessage(m);
    assert s[2] == f[2] == size / 0x100 && s[3] == f[3] == size % 0x100;
    ToU16Small(MessageSize(m));
  }
}
