/**
  The records of per-node OLSR protocol state (link, neighbour, two-hop,
  MPR selector, duplicate, topology, interface association and HNA
  association tuples) and the containers that hold them.

  Each record carries an identity, its `operator==`, that compares only some
  of its fields. Each identity below is stated as: two tuples are equal
  exactly when the second is the first with only the ignored fields replaced.
 */
module Repositories {
  import opened Bytes
  import opened Ns3Types

  /** Willingness to forward for other nodes. Any byte is accepted; the five
      named values are those of section 18.8 of RFC 3626. */
  type Willingness = byte

  const NEVER: Willingness := 0
  const LOW: Willingness := 1
  const DEFAULT: Willingness := 3
  const HIGH: Willingness := 6
  const ALWAYS: Willingness := 7

  datatype IfaceAssocTuple = IfaceAssocTuple(ifaceAddr: Ipv4Address, mainAddr: Ipv4Address, time: Time)

  /** Identity compares the interface and main addresses, not the time. */
  function IfaceAssocTupleEq(a: IfaceAssocTuple, b: IfaceAssocTuple): (r: bool)
    ensures r <==> b == a.(time := b.time)
  {
    a.ifaceAddr == b.ifaceAddr && a.mainAddr == b.mainAddr
  }

  datatype LinkTuple = LinkTuple(
    localIfaceAddr: Ipv4Address,
    neighborIfaceAddr: Ipv4Address,
    symTime: Time,
    asymTime: Time,
    time: Time)

  /** Identity compares the two interface addresses, none of the three times. */
  function LinkTupleEq(a: LinkTuple, b: LinkTuple): (r: bool)
    ensures r <==> b == a.(symTime := b.symTime, asymTime := b.asymTime, time := b.time)
  {
    a.localIfaceAddr == b.localIfaceAddr && a.neighborIfaceAddr == b.neighborIfaceAddr
  }

  /** STATUS_NOT_SYM = 0, STATUS_SYM = 1. */
  datatype NeighborStatus = StatusNotSym | StatusSym

  datatype NeighborTuple = NeighborTuple(
    neighborMainAddr: Ipv4Address,
    status: NeighborStatus,
    willingness: Willingness,
    helloInterval: Time)

  /** Identity compares address, status and willingness; only the HELLO
      interval is ignored. */
  function NeighborTupleEq(a: NeighborTuple, b: NeighborTuple): (r: bool)
    ensures r <==> b == a.(helloInterval := b.helloInterval)
  {
    a.neighborMainAddr == b.neighborMainAddr && a.status == b.status &&
    a.willingness == b.willingness
  }

  datatype TwoHopNeighborTuple = TwoHopNeighborTuple(
    neighborMainAddr: Ipv4Address,
    twoHopNeighborAddr: Ipv4Address,
    expirationTime: Time,
    helloInterval: Time)

  /** Identity compares the neighbour and the two-hop neighbour. */
  function TwoHopNeighborTupleEq(a: TwoHopNeighborTuple, b: TwoHopNeighborTuple): (r: bool)
    ensures r <==> b == a.(expirationTime := b.expirationTime, helloInterval := b.helloInterval)
  {
    a.neighborMainAddr == b.neighborMainAddr && a.twoHopNeighborAddr == b.twoHopNeighborAddr
  }

  datatype MprSelectorTuple = MprSelectorTuple(mainAddr: Ipv4Address, expirationTime: Time)

  /** Identity is the selector's main address. */
  function MprSelectorTupleEq(a: MprSelectorTuple, b: MprSelectorTuple): (r: bool)
    ensures r <==> b == a.(expirationTime := b.expirationTime)
  {
    a.mainAddr == b.mainAddr
  }

  datatype DuplicateTuple = DuplicateTuple(
    address: Ipv4Address,
    sequenceNumber: u16,
    retransmitted: bool,
    ifaceList: seq<Ipv4Address>,
    expirationTime: Time)

  /** Identity is (originator, sequence number); the retransmission flag, the
      interface list and the expiry are ignored. */
  function DuplicateTupleEq(a: DuplicateTuple, b: DuplicateTuple): (r: bool)
    ensures r <==> b == a.(retransmitted := b.retransmitted, ifaceList := b.ifaceList,
                           expirationTime := b.expirationTime)
  {
    a.address == b.address && a.sequenceNumber == b.sequenceNumber
  }

  datatype TopologyTuple = TopologyTuple(
    destAddr: Ipv4Address,
    lastAddr: Ipv4Address,
    sequenceNumber: u16,
    expirationTime: Time,
    position: Vector,
    helloInterval: Time)

  /** Identity is (destination, last hop, sequence number). */
  function TopologyTupleEq(a: TopologyTuple, b: TopologyTuple): (r: bool)
    ensures r <==> b == a.(expirationTime := b.expirationTime, position := b.position,
                           helloInterval := b.helloInterval)
  {
    a.destAddr == b.destAddr && a.lastAddr == b.lastAddr && a.sequenceNumber == b.sequenceNumber
  }

  datatype Association = Association(networkAddr: Ipv4Address, netmask: Ipv4Mask)

  /** Identity compares every field, so it is plain equality. */
  function AssociationEq(a: Association, b: Association): (r: bool)
    ensures r <==> a == b
  {
    a.networkAddr == b.networkAddr && a.netmask == b.netmask
  }

  datatype AssociationTuple = AssociationTuple(
    gatewayAddr: Ipv4Address,
    networkAddr: Ipv4Address,
    netmask: Ipv4Mask,
    expirationTime: Time)

  /** Identity is (gateway, network, mask); the expiry is ignored. */
  function AssociationTupleEq(a: AssociationTuple, b: AssociationTuple): (r: bool)
    ensures r <==> b == a.(expirationTime := b.expirationTime)
  {
    a.gatewayAddr == b.gatewayAddr && a.networkAddr == b.networkAddr && a.netmask == b.netmask
  }

  // Each identity is reflexive, symmetric and transitive.

  lemma IfaceAssocTupleEqIsEquivalence(a: IfaceAssocTuple, b: IfaceAssocTuple, c: IfaceAssocTuple)
    ensures IfaceAssocTupleEq(a, a)
    ensures IfaceAssocTupleEq(a, b) ==> IfaceAssocTupleEq(b, a)
    ensures IfaceAssocTupleEq(a, b) && IfaceAssocTupleEq(b, c) ==> IfaceAssocTupleEq(a, c)
  {
  }

  lemma LinkTupleEqIsEquivalence(a: LinkTuple, b: LinkTuple, c: LinkTuple)
    ensures LinkTupleEq(a, a)
    ensures LinkTupleEq(a, b) ==> LinkTupleEq(b, a)
    ensures LinkTupleEq(a, b) && LinkTupleEq(b, c) ==> LinkTupleEq(a, c)
  {
  }

  lemma NeighborTupleEqIsEquivalence(a: NeighborTuple, b: NeighborTuple, c: NeighborTuple)
    ensures NeighborTupleEq(a, a)
    ensures NeighborTupleEq(a, b) ==> NeighborTupleEq(b, a)
    ensures NeighborTupleEq(a, b) && NeighborTupleEq(b, c) ==> NeighborTupleEq(a, c)
  {
  }

  lemma TwoHopNeighborTupleEqIsEquivalence(a: TwoHopNeighborTuple, b: TwoHopNeighborTuple, c: TwoHopNeighborTuple)
    ensures TwoHopNeighborTupleEq(a, a)
    ensures TwoHopNeighborTupleEq(a, b) ==> TwoHopNeighborTupleEq(b, a)
    ensures TwoHopNeighborTupleEq(a, b) && TwoHopNeighborTupleEq(b, c) ==> TwoHopNeighborTupleEq(a, c)
  {
  }

  lemma MprSelectorTupleEqIsEquivalence(a: MprSelectorTuple, b: MprSelectorTuple, c: MprSelectorTuple)
    ensures MprSelectorTupleEq(a, a)
    ensures MprSelectorTupleEq(a, b) ==> MprSelectorTupleEq(b, a)
    ensures MprSelectorTupleEq(a, b) && MprSelectorTupleEq(b, c) ==> MprSelectorTupleEq(a, c)
  {
  }

  lemma DuplicateTupleEqIsEquivalence(a: DuplicateTuple, b: DuplicateTuple, c: DuplicateTuple)
    ensures DuplicateTupleEq(a, a)
    ensures DuplicateTupleEq(a, b) ==> DuplicateTupleEq(b, a)
    ensures DuplicateTupleEq(a, b) && DuplicateTupleEq(b, c) ==> DuplicateTupleEq(a, c)
  {
  }

  lemma TopologyTupleEqIsEquivalence(a: TopologyTuple, b: TopologyTuple, c: TopologyTuple)
    ensures TopologyTupleEq(a, a)
    ensures TopologyTupleEq(a, b) ==> TopologyTupleEq(b, a)
    ensures TopologyTupleEq(a, b) && TopologyTupleEq(b, c) ==> TopologyTupleEq(a, c)
  {
  }

  lemma AssociationEqIsEquivalence(a: Association, b: Association, c: Association)
    ensures AssociationEq(a, a)
    ensures AssociationEq(a, b) ==> AssociationEq(b, a)
    ensures AssociationEq(a, b) && AssociationEq(b, c) ==> AssociationEq(a, c)
  {
  }

  lemma AssociationTupleEqIsEquivalence(a: AssociationTuple, b: AssociationTuple, c: AssociationTuple)
    ensures AssociationTupleEq(a, a)
    ensures AssociationTupleEq(a, b) ==> AssociationTupleEq(b, a)
    ensures AssociationTupleEq(a, b) && AssociationTupleEq(b, c) ==> AssociationTupleEq(a, c)
  {
  }

  /** The containers: MprSet is an ordered set, the others are vectors. */
  type MprSet = set<Ipv4Address>
  type MprSelectorSet = seq<MprSelectorTuple>
  type LinkSet = seq<LinkTuple>
  type NeighborSet = seq<NeighborTuple>
  type TwoHopNeighborSet = seq<TwoHopNeighborTuple>
  type TopologySet = seq<TopologyTuple>
  type DuplicateSet = seq<DuplicateTuple>
  type IfaceAssocSet = seq<IfaceAssocTuple>
  type AssociationSet = seq<AssociationTuple>
  type Associations = seq<Association>
}
