/** Contacts: an id, the address it was heard from, and when. */
module Nodes {
  import opened Bits

  type Octets4 = s: seq<byte> | |s| == 4 witness [0, 0, 0, 0]
  type Octets16 = s: seq<byte> | |s| == 16 witness seq(16, _ => 0)

  datatype IpAddr = V4(octets: Octets4) | V6(segments: Octets16)

  datatype Addr = Addr(ip: IpAddr, port: bv16)

  datatype Node = Node(id: Id, addr: Addr, lastActive: int)
}
