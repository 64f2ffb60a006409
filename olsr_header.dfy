/**
  The OLSR header objects. A packet header, a message header and each of the
  four message bodies keep their fields as mutable state; Serialize returns
  the bytes it writes at the buffer position, and Deserialize reads fields
  from a byte sequence at a position and returns the count the source code
  returns. Each method is specified by the wire-format functions of
  HeaderFormat, whose round trips are proved there.
 */
module OlsrHeader {
  import opened Bytes
  import opened Ns3Types
  import opened HeaderFormat

  /** The loop that writes addresses one after another. */
  method WriteAddresses(addrs: seq<Ipv4Address>) returns (bytes: seq<byte>)
    ensures bytes == EncodeAddresses(addrs)
  {
    bytes := [];
    var k := 0;
    while k < |addrs|
      invariant 0 <= k <= |addrs|
      invariant bytes == EncodeAddresses(addrs[..k])
    {
      assert addrs[..k + 1][..k] == addrs[..k];
      bytes := bytes + HtonU32(addrs[k]);
      k := k + 1;
    }
    assert addrs[..k] == addrs;
  }

  /** The loop that reads n addresses one after another from position i. */
  method ReadAddressList(data: seq<byte>, i: nat, n: nat) returns (addrs: seq<Ipv4Address>)
    requires i + 4 * n <= |data|
    ensures addrs == ReadAddresses(data, i, n)
  {
    addrs := [];
    var k := 0;
    while k < n
      invariant 0 <= k <= n
      invariant addrs == ReadAddresses(data, i, k)
    {
      addrs := addrs + [NtohU32(data, i + 4 * k)];
      k := k + 1;
    }
  }

  /** One link message of Hello::Serialize: its code, a reserved zero, the
      size field truncated to 16 bits, and the addresses. */
  method WriteLinkMessage(lm: LinkMessage) returns (bytes: seq<byte>)
    ensures bytes == EncodeLinkMessage(lm)
  {
    var addrs := lm.neighborInterfaceAddresses;
    var addrBytes := WriteAddresses(addrs);
    bytes := [lm.linkCode, 0] + HtonU16(ToU16(4 + |addrs| * 4)) + addrBytes;
  }

  class PacketHeader {
    var packetLength: u16
    var packetSequenceNumber: u16

    function Value(): PacketHeaderValue
      reads this
    {
      PacketHeaderValue(packetLength, packetSequenceNumber)
    }

    /** The size reported is the number of bytes Serialize writes. */
    function GetSerializedSize(): (n: u32)
      reads this
      ensures n == |EncodePacketHeader(Value())|
    {
      OLSR_PKT_HEADER_SIZE
    }

    method Serialize() returns (bytes: seq<byte>)
      ensures bytes == EncodePacketHeader(Value())
    {
      bytes := HtonU16(packetLength);
      bytes := bytes + HtonU16(packetSequenceNumber);
    }

    method Deserialize(data: seq<byte>, start: nat) returns (size: u32)
      requires start + OLSR_PKT_HEADER_SIZE <= |data|
      modifies this
      ensures Value() == DecodePacketHeader(data, start)
      ensures size == OLSR_PKT_HEADER_SIZE
    {
      packetLength := NtohU16(data, start);
      packetSequenceNumber := NtohU16(data, start + 2);
      size := GetSerializedSize();
    }
  }

  class Mid {
    var interfaceAddresses: seq<Ipv4Address>

    /** The address vector is default-constructed empty. */
    constructor ()
      ensures interfaceAddresses == []
    {
      interfaceAddresses := [];
    }

    function Value(): MidValue
      reads this
    {
      MidValue(interfaceAddresses)
    }

    /** The size reported is the number of bytes Serialize writes, as a uint32_t. */
    function GetSerializedSize(): (n: u32)
      reads this
      ensures n == ToU32(|EncodeMid(Value())|)
    {
      ToU32(|interfaceAddresses| * 4)
    }

    method Serialize() returns (bytes: seq<byte>)
      ensures bytes == EncodeMid(Value())
    {
      bytes := WriteAddresses(interfaceAddresses);
    }

    /** The length must be a multiple of 4; the count returned is the size
        of what was read, which is that length. */
    method Deserialize(data: seq<byte>, start: nat, messageSize: u32) returns (size: u32)
      requires MidFits(data, start, messageSize)
      modifies this
      ensures Value() == DecodeMid(data, start, messageSize)
      ensures size == messageSize
    {
      interfaceAddresses := [];
      var numAddresses := messageSize / 4;
      interfaceAddresses := ReadAddressList(data, start, numAddresses);
      size := GetSerializedSize();
      ToU32Small(messageSize);
    }
  }

  class Hello {
    var hTime: byte
    var willingness: byte
    var linkMessages: seq<LinkMessage>
    var position: Vector

    /** The link-message vector is default-constructed empty. */
    constructor ()
      ensures linkMessages == []
    {
      linkMessages := [];
    }

    function Value(): HelloValue
      reads this
    {
      HelloValue(hTime, willingness, linkMessages, position)
    }

    /** The size reported counts the head and the link messages, as a
        uint32_t, and falls 24 bytes short of what Serialize writes. */
    method GetSerializedSize() returns (size: u32)
      ensures size == ToU32(HelloSize(Value()))
      ensures size == ToU32(|EncodeHello(Value())| - 24)
    {
      size := 4;
      var k := 0;
      while k < |linkMessages|
        invariant 0 <= k <= |linkMessages|
        invariant size == ToU32(4 + LinkMessagesSize(linkMessages[..k]))
      {
        var lm := linkMessages[k];
        ghost var counted := 4 + LinkMessagesSize(linkMessages[..k]);
        assert linkMessages[..k + 1] == linkMessages[..k] + [lm];
        LinkMessagesAppend(linkMessages[..k], lm);
        assert 4 + LinkMessagesSize(linkMessages[..k + 1]) == counted + 4 + 4 * |lm.neighborInterfaceAddresses|;
        ToU32Add(counted, 4);
        size := ToU32(size + 4);
        ToU32Add(counted + 4, 4 * |lm.neighborInterfaceAddresses|);
        size := ToU32(size + 4 * |lm.neighborInterfaceAddresses|);
        k := k + 1;
      }
      assert linkMessages[..k] == linkMessages;
    }

    method Serialize() returns (bytes: seq<byte>)
      ensures bytes == EncodeHello(Value())
    {
      var head := U16Le(0) + [hTime, willingness];
      var linkBytes := [];
      var k := 0;
      while k < |linkMessages|
        invariant 0 <= k <= |linkMessages|
        invariant linkBytes == EncodeLinkMessages(linkMessages[..k])
      {
        var lm := linkMessages[k];
        var lmBytes := WriteLinkMessage(lm);
        assert linkMessages[..k + 1] == linkMessages[..k] + [lm];
        LinkMessagesAppend(linkMessages[..k], lm);
        linkBytes := linkBytes + lmBytes;
        k := k + 1;
      }
      assert linkMessages[..k] == linkMessages;
      bytes := head + linkBytes;
      bytes := bytes + HtonU64(position.x);
      bytes := bytes + HtonU64(position.y);
      bytes := bytes + HtonU64(position.z);
    }

    /** Reads the fixed head, then the link messages, then the position.
        Returns the length it was given. */
    method Deserialize(data: seq<byte>, start: nat, messageSize: u32) returns (size: u32)
      requires HelloFits(data, start, messageSize)
      modifies this
      ensures Value() == DecodeHello(data, start, messageSize)
      ensures size == messageSize
    {
      linkMessages := [];
      hTime := data[start + 2];
      willingness := data[start + 3];
      var i := ReadLinkMessages(data, start + 4, messageSize - 4);
      position := Vector(NtohU64(data, i), NtohU64(data, i + 8), NtohU64(data, i + 16));
      size := messageSize;
    }

    /** The reading loop of Deserialize: while the uint32_t counter is not
        zero, it reads a link message, appends it, and takes its size field
        off the counter. Returns the position it stops at. */
    method ReadLinkMessages(data: seq<byte>, start: nat, remaining: u32) returns (i: nat)
      requires LinkChainFits(data, start, remaining)
      modifies this
      ensures linkMessages == old(linkMessages) + ParseLinkMessages(data, start, remaining).messages
      ensures i == ParseLinkMessages(data, start, remaining).end
      ensures hTime == old(hTime) && willingness == old(willingness) && position == old(position)
    {
      i := start;
      var remainingSize := remaining;
      while remainingSize > 0
        invariant LinkChainFits(data, i, remainingSize)
        invariant old(linkMessages) + ParseLinkMessages(data, start, remaining).messages ==
                  linkMessages + ParseLinkMessages(data, i, remainingSize).messages
        invariant ParseLinkMessages(data, start, remaining).end == ParseLinkMessages(data, i, remainingSize).end
        invariant hTime == old(hTime) && willingness == old(willingness) && position == old(position)
        decreases |data| - i
      {
        ParseLinkMessagesStep(data, i, remainingSize, linkMessages,
                              old(linkMessages) + ParseLinkMessages(data, start, remaining).messages);
        var linkCode := data[i];
        var lmSize := NtohU16(data, i + 2);
        var count := AddressCount(lmSize);
        var addrs := ReadAddressList(data, i + 4, count);
        linkMessages := linkMessages + [LinkMessage(linkCode, addrs)];
        i := i + 4 + 4 * count;
        remainingSize := ToU32(remainingSize - lmSize);
      }
    }
  }

  class Tc {
    var ansn: u16
    var neighborAddresses: seq<Ipv4Address>
    var position: Vector
    var helloInterval: u64

    /** The address vector is default-constructed empty. */
    constructor ()
      ensures neighborAddresses == []
    {
      neighborAddresses := [];
    }

    function Value(): TcValue
      reads this
    {
      TcValue(ansn, neighborAddresses, position, helloInterval)
    }

    /** The size reported is the number of bytes Serialize writes, as a uint32_t. */
    function GetSerializedSize(): (n: u32)
      reads this
      ensures n == ToU32(|EncodeTc(Value())|)
    {
      ToU32(4 + |neighborAddresses| * 4 + 4 * 8)
    }

    method Serialize() returns (bytes: seq<byte>)
      ensures bytes == EncodeTc(Value())
    {
      var head := HtonU16(ansn) + HtonU16(0);
      var addrBytes := WriteAddresses(neighborAddresses);
      bytes := head + addrBytes;
      bytes := bytes + U64Le(position.x);
      bytes := bytes + U64Le(position.y);
      bytes := bytes + U64Le(position.z);
      bytes := bytes + U64Le(helloInterval);
    }

    /** Clears the list and reads the ansn; the address region is the length
        minus GetSerializedSize() of the now empty list. When that is not a
        multiple of 4 it returns 0 and leaves the position and the interval
        as they were; otherwise it reads the addresses and the four 64-bit
        fields and returns the length. */
    method Deserialize(data: seq<byte>, start: nat, messageSize: u32) returns (size: u32)
      requires TcFits(data, start, messageSize)
      modifies this
      ensures DecodeTc(data, start, messageSize).TcLengthError? ==>
                ansn == DecodeTc(data, start, messageSize).ansn && neighborAddresses == [] &&
                position == old(position) && helloInterval == old(helloInterval) && size == 0
      ensures DecodeTc(data, start, messageSize).TcDecoded? ==>
                Value() == DecodeTc(data, start, messageSize).tc && size == messageSize
    {
      neighborAddresses := [];
      ansn := NtohU16(data, start);
      var addressBytes := ToU32(messageSize - GetSerializedSize());
      assert addressBytes == TcAddressBytes(messageSize);
      if addressBytes % 4 != 0 {
        return 0;
      }
      var numberOfAddresses := addressBytes / 4;
      var addrs := ReadAddressList(data, start + 4, numberOfAddresses);
      var j := start + 4 + 4 * numberOfAddresses;
      var pos := Vector(LeU64(data, j), LeU64(data, j + 8), LeU64(data, j + 16));
      var interval := LeU64(data, j + 24);
      assert DecodeTc(data, start, messageSize) == TcDecoded(TcValue(ansn, addrs, pos, interval));
      neighborAddresses := addrs;
      position := pos;
      helloInterval := interval;
      size := messageSize;
    }
  }

  class Hna {
    var associations: seq<HnaAssociation>

    /** The association vector is default-constructed empty. */
    constructor ()
      ensures associations == []
    {
      associations := [];
    }

    function Value(): HnaValue
      reads this
    {
      HnaValue(associations)
    }

    /** The size reported is the number of bytes Serialize writes, as a uint32_t. */
    function GetSerializedSize(): (n: u32)
      reads this
      ensures n == ToU32(|EncodeHna(Value())|)
    {
      ToU32(2 * |associations| * 4)
    }

    method Serialize() returns (bytes: seq<byte>)
      ensures bytes == EncodeHna(Value())
    {
      bytes := [];
      var n := 0;
      while n < |associations|
        invariant 0 <= n <= |associations|
        invariant bytes == EncodeAssociations(associations[..n])
      {
        assert associations[..n + 1][..n] == associations[..n];
        bytes := bytes + HtonU32(associations[n].address);
        bytes := bytes + HtonU32(associations[n].mask);
        n := n + 1;
      }
      assert associations[..n] == associations;
    }

    /** The length must be a multiple of 8; returns the length. */
    method Deserialize(data: seq<byte>, start: nat, messageSize: u32) returns (size: u32)
      requires HnaFits(data, start, messageSize)
      modifies this
      ensures Value() == DecodeHna(data, start, messageSize)
      ensures size == messageSize
    {
      var numAddresses := messageSize / 4 / 2;
      associations := [];
      var n := 0;
      while n < numAddresses
        invariant 0 <= n <= numAddresses
        invariant associations == ReadAssociations(data, start, n)
      {
        var address := NtohU32(data, start + 8 * n);
        var mask := NtohU32(data, start + 8 * n + 4);
        associations := associations + [HnaAssociation(address, mask)];
        n := n + 1;
      }
      size := messageSize;
    }
  }

  /** A message header holds one body of each kind; the type field says
      which of them the header carries. */
  class MessageHeader {
    var messageType: byte
    var vTime: byte
    var messageSize: u16
    var originatorAddress: Ipv4Address
    var timeToLive: byte
    var hopCount: byte
    var messageSequenceNumber: u16
    const mid: Mid
    const hello: Hello
    const tc: Tc
    const hna: Hna

    constructor ()
      ensures messageType == 0
      ensures fresh(mid) && fresh(hello) && fresh(tc) && fresh(hna)
      ensures mid.interfaceAddresses == [] && hello.linkMessages == []
      ensures tc.neighborAddresses == [] && hna.associations == []
    {
      messageType := 0;
      mid := new Mid();
      hello := new Hello();
      tc := new Tc();
      hna := new Hna();
    }

    /** The type field names one of the four message kinds. */
    predicate HasBody()
      reads this
    {
      HELLO_MESSAGE <= messageType <= HNA_MESSAGE
    }

    function Fields(): HeaderFields
      reads this
    {
      HeaderFields(vTime, messageSize, originatorAddress, timeToLive, hopCount, messageSequenceNumber)
    }

    /** The body the type field selects. */
    function Body(): (b: Body)
      reads this, mid, hello, tc, hna
      requires HasBody()
      ensures MessageType(b) == messageType
    {
      if messageType == MID_MESSAGE then MidBody(mid.Value())
      else if messageType == HELLO_MESSAGE then HelloBody(hello.Value())
      else if messageType == TC_MESSAGE then TcBody(tc.Value())
      else HnaBody(hna.Value())
    }

    function Value(): Message
      reads this, mid, hello, tc, hna
      requires HasBody()
    {
      Message(Fields(), Body())
    }

    /** 12 and the size the body reports, as a uint32_t. */
    method GetSerializedSize() returns (size: u32)
      requires HasBody()
      ensures size == ToU32(MessageSize(Value()))
    {
      var bodySize: u32;
      if messageType == MID_MESSAGE {
        bodySize := mid.GetSerializedSize();
      } else if messageType == HELLO_MESSAGE {
        bodySize := hello.GetSerializedSize();
      } else if messageType == TC_MESSAGE {
        bodySize := tc.GetSerializedSize();
      } else {
        bodySize := hna.GetSerializedSize();
      }
      assert bodySize == ToU32(BodySize(Body()));
      ToU32Add(BodySize(Body()), OLSR_MSG_HEADER_SIZE);
      size := ToU32(OLSR_MSG_HEADER_SIZE + bodySize);
    }

    /** The size field written is GetSerializedSize(), truncated to 16 bits,
        whatever the stored messageSize says. */
    method Serialize() returns (bytes: seq<byte>)
      requires HasBody()
      ensures bytes == EncodeMessage(Value())
    {
      var size := GetSerializedSize();
      ToU16OfToU32(MessageSize(Value()));
      bytes := [messageType, vTime] + HtonU16(ToU16(size)) + HtonU32(originatorAddress) +
               [timeToLive, hopCount] + HtonU16(messageSequenceNumber);
      var body: seq<byte>;
      if messageType == MID_MESSAGE {
        body := mid.Serialize();
      } else if messageType == HELLO_MESSAGE {
        body := hello.Serialize();
      } else if messageType == TC_MESSAGE {
        body := tc.Serialize();
      } else {
        body := hna.Serialize();
      }
      bytes := bytes + body;
    }

    /** Reads the 12 header bytes, then has the body of the type read
        deserialize itself with the stored size minus 12 as a uint32_t, and
        returns 12 plus what the body returned. The other bodies are left as
        they were. */
    method Deserialize(data: seq<byte>, start: nat) returns (size: u32)
      requires MessageFits(data, start)
      modifies this, mid, hello, tc, hna
      ensures messageType == data[start] && HasBody()
      ensures Fields() == DecodeMessage(data, start).fields && size == DecodeMessage(data, start).size
      ensures DecodeMessage(data, start).outcome.Parsed? ==> Body() == DecodeMessage(data, start).outcome.body
      ensures DecodeMessage(data, start).outcome.TcError? ==>
                tc.ansn == DecodeMessage(data, start).outcome.ansn && tc.neighborAddresses == [] &&
                tc.position == old(tc.position) && tc.helloInterval == old(tc.helloInterval)
      ensures messageType != MID_MESSAGE ==> unchanged(mid)
      ensures messageType != HELLO_MESSAGE ==> unchanged(hello)
      ensures messageType != TC_MESSAGE ==> unchanged(tc)
      ensures messageType != HNA_MESSAGE ==> unchanged(hna)
    {
      messageType := data[start];
      vTime := data[start + 1];
      messageSize := NtohU16(data, start + 2);
      originatorAddress := NtohU32(data, start + 4);
      timeToLive := data[start + 8];
      hopCount := data[start + 9];
      messageSequenceNumber := NtohU16(data, start + 10);
      var bodyLength := ToU32(messageSize - OLSR_MSG_HEADER_SIZE);
      assert bodyLength == BodyLength(data, start);
      var bodyRead := DeserializeBody(data, start + OLSR_MSG_HEADER_SIZE, bodyLength);
      size := ToU32(OLSR_MSG_HEADER_SIZE + bodyRead);
    }

    /** The dispatch on the type inside Deserialize: the body of that type
        reads itself and the others are left alone. */
    method DeserializeBody(data: seq<byte>, j: nat, bodyLength: u32) returns (bodyRead: u32)
      requires HasBody() && BodyFits(messageType, data, j, bodyLength)
      modifies mid, hello, tc, hna
      ensures DecodeBody(messageType, data, j, bodyLength).Parsed? ==>
                Body() == DecodeBody(messageType, data, j, bodyLength).body && bodyRead == bodyLength
      ensures DecodeBody(messageType, data, j, bodyLength).TcError? ==>
                tc.ansn == DecodeBody(messageType, data, j, bodyLength).ansn &&
                tc.neighborAddresses == [] && tc.position == old(tc.position) &&
                tc.helloInterval == old(tc.helloInterval) && bodyRead == 0
      ensures messageType != MID_MESSAGE ==> unchanged(mid)
      ensures messageType != HELLO_MESSAGE ==> unchanged(hello)
      ensures messageType != TC_MESSAGE ==> unchanged(tc)
      ensures messageType != HNA_MESSAGE ==> unchanged(hna)
    {
      if messageType == MID_MESSAGE {
        bodyRead := mid.Deserialize(data, j, bodyLength);
      } else if messageType == HELLO_MESSAGE {
        bodyRead := hello.Deserialize(data, j, bodyLength);
      } else if messageType == TC_MESSAGE {
        bodyRead := tc.Deserialize(data, j, bodyLength);
      } else {
        bodyRead := hna.Deserialize(data, j, bodyLength);
      }
    }
  }
}
