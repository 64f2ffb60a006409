/**
  The ns-3 library types the OLSR code stores in its headers and tuples.
  They are foreign to the model: addresses and masks are their 32-bit
  values, a time is an integer timestamp, and a position or a double-valued
  interval is the 64-bit pattern that DoubleToUint64 produces for it.
 */
module Ns3Types {
  import opened Bytes

  /** Ipv4Address, as the value Ipv4Address::Get returns. */
  type Ipv4Address = u32

  /** Ipv4Mask, as the value Ipv4Mask::Get returns. */
  type Ipv4Mask = u32

  /** ns3::Time, as an integer count of its resolution unit. */
  type Time = int

  /** ns3::Vector: the bit patterns of the three coordinates. */
  datatype Vector = Vector(x: u64, y: u64, z: u64)
}
