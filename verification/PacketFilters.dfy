/** Packet filters of a traffic flow template (section 10.5.6.12 of 3GPP TS 24.008). */
module PacketFilters {
  import opened Octets

  /**
   * The C structure of component values. `flags` is the flag word, given as the set of its
   * one bits: bit k says that component k is present.
   */
  datatype Contents = Contents(
    flags: set<nat>,
    ipv4Addr: octets4, ipv4Mask: octets4,
    ipv6Addr: octets16, ipv6Mask: octets16,
    nextHeader: octet,
    localPort: u16,
    localLow: u16, localHigh: u16,
    remotePort: u16,
    remoteLow: u16, remoteHigh: u16,
    securityIndex: u32,
    classValue: octet, classMask: octet,
    flowLabel: u32)

  datatype PacketFilter = PacketFilter(
    direction: bits2, identifier: bits4, precedence: octet, length: octet, contents: Contents)

  const ZERO4: octets4 := [0, 0, 0, 0]
  const ZERO16: octets16 := [0, 0, 0, 0, 0, 0, 0, 0, 0, 0, 0, 0, 0, 0, 0, 0]

  /** What memset leaves behind. */
  const ZERO_CONTENTS := Contents({}, ZERO4, ZERO4, ZERO16, ZERO16, 0, 0, 0, 0, 0, 0, 0, 0, 0, 0, 0)
  const ZERO_FILTER := PacketFilter(0, 0, 0, 0, ZERO_CONTENTS)

  /** A filter slot is free when its length reads zero. */
  predicate Live(f: PacketFilter) {
    f.length != 0
  }
}
