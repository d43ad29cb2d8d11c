/** What the bytes of an Ethernet frame say, in the numbers of the standards: the EtherTypes of PROFINET and
    IPv4, the 802.1Q tag, the IPv4 protocol numbers of TCP and UDP, and the ports the product listens for. This
    is the reference the parser, the classification and the discovery engine are measured against. */
module Wire {
  import opened Basics

  function U16At(b: seq<byte>, i: nat): u16
    requires i + 2 <= |b|
  {
    b[i] as int * 256 + b[i + 1]
  }

  predicate Tagged(b: seq<byte>) {
    |b| >= 14 && b[12] == 0x81 && b[13] == 0x00
  }

  /** Where the frame's body starts: behind two addresses, one tag if present, and the EtherType. */
  function Body(b: seq<byte>): nat {
    if Tagged(b) then 18 else 14
  }

  /** The EtherType that governs the body. */
  predicate HasType(b: seq<byte>, hi: byte, lo: byte) {
    |b| >= Body(b) && b[Body(b) - 2] == hi && b[Body(b) - 1] == lo
  }

  // ---------------------------------------------------------------- PROFINET

  /** A cyclic frame: EtherType 0x8892, a FrameID, and at least the status byte. */
  predicate Cyclic(b: seq<byte>) {
    HasType(b, 0x88, 0x92) && |b| >= Body(b) + 3
  }

  function FrameId(b: seq<byte>): u16
    requires Cyclic(b)
  {
    U16At(b, Body(b))
  }

  /** Everything behind the FrameID. */
  function IoImage(b: seq<byte>): (image: seq<byte>)
    requires Cyclic(b)
    ensures image != []
  {
    b[Body(b) + 2..]
  }

  function StatusByte(b: seq<byte>): byte
    requires Cyclic(b)
  {
    b[Body(b) + 2]
  }

  /** The value of one bit, counted from the least significant. */
  predicate BitSet(v: byte, k: nat) {
    v / Pow2(k) % 2 == 1
  }

  // ---------------------------------------------------------------- IPv4

  /** Behind the IPv4 header, whose length is the low half of its first byte, in words. */
  function Transport(b: seq<byte>): nat
    requires |b| > Body(b)
  {
    Body(b) + b[Body(b)] % 16 * 4
  }

  predicate Ipv4(b: seq<byte>) {
    && HasType(b, 0x08, 0x00) && |b| >= Body(b) + 20
    && b[Body(b)] % 16 >= 5 && |b| >= Transport(b) + 8
  }

  /** IPv4 protocol 17 with a complete UDP datagram. */
  predicate Udp(b: seq<byte>) {
    && Ipv4(b) && b[Body(b) + 9] == 17
    && U16At(b, Transport(b) + 4) >= 8 && |b| >= Transport(b) + U16At(b, Transport(b) + 4)
  }

  function DstPort(b: seq<byte>): u16
    requires Udp(b)
  {
    U16At(b, Transport(b) + 2)
  }

  function DatagramLen(b: seq<byte>): u16
    requires Udp(b)
  {
    U16At(b, Transport(b) + 4)
  }

  /** Port 60008 with three four-byte coordinates. */
  predicate Pose(b: seq<byte>) {
    Udp(b) && DstPort(b) == 60008 && DatagramLen(b) >= 8 + 12
  }

  predicate Topic(b: seq<byte>) {
    Udp(b) && DstPort(b) != 60008
  }

  /** IPv4 protocol 6 with port 102 on either side. */
  predicate S7(b: seq<byte>) {
    Ipv4(b) && b[Body(b) + 9] == 6 && (U16At(b, Transport(b)) == 102 || U16At(b, Transport(b) + 2) == 102)
  }

  predicate Accepted(b: seq<byte>) {
    Cyclic(b) || Pose(b) || Topic(b) || S7(b)
  }
}
