/** The fixture frame builders, with IPv4 options allowed in addition, as an inverse of the parser. */
module FrameBuilders {
  import opened Basics
  import opened Ingest

  function Zeros(n: nat): (z: seq<byte>)
    ensures |z| == n && forall i :: 0 <= i < n ==> z[i] == 0
  {
    seq(n, _ => 0)
  }

  function U16Be(v: u16): (b: seq<byte>)
    ensures |b| == 2 && b[0] as int * 0x100 + b[1] == v
  {
    [v / 0x100, v % 0x100]
  }

  /** Zero addresses and an EtherType. */
  function Eth(ethertype: u16): (b: seq<byte>)
    ensures |b| == 14 && ReadU16Be(b, 12) == ethertype
  {
    Zeros(12) + U16Be(ethertype)
  }

  /** A cyclic frame with the given status byte, padded to the Ethernet minimum. */
  function StatusFrame(frameId: u16, status: byte): (b: seq<byte>)
    ensures |b| == 60
  {
    Eth(ETHERTYPE_PROFINET) + U16Be(frameId) + [status] + Zeros(43)
  }

  /** The fixture's frame: bit 0 is the interlock. */
  function ProfinetFrame(frameId: u16, interlock: bool): (b: seq<byte>)
    ensures |b| == 60
  {
    StatusFrame(frameId, if interlock then 1 else 0)
  }

  /** An IPv4 header of five words plus `options`. */
  function Ipv4Header(proto: byte, options: seq<byte>): (b: seq<byte>)
    requires |options| % 4 == 0 && |options| <= 40
    ensures |b| == 20 + |options| && b[0] == 0x45 + |options| / 4 && b[9] == proto
  {
    [0x45 + |options| / 4] + Zeros(8) + [proto] + Zeros(10) + options
  }

  function Ipv4Frame(proto: byte, options: seq<byte>, l4: seq<byte>): seq<byte>
    requires |options| % 4 == 0 && |options| <= 40
  {
    Eth(ETHERTYPE_IPV4) + Ipv4Header(proto, options) + l4
  }

  function UdpDatagram(dstPort: u16, payload: seq<byte>): (b: seq<byte>)
    requires |payload| <= 65527
    ensures |b| == 8 + |payload| && ReadU16Be(b, 2) == dstPort && ReadU16Be(b, 4) == 8 + |payload| && b[8..] == payload
  {
    Zeros(2) + U16Be(dstPort) + U16Be(8 + |payload|) + Zeros(2) + payload
  }

  lemma StatusFrameParses(ts: u64, frameId: u16, status: byte)
    ensures ParseFrame(ts, StatusFrame(frameId, status)) ==
      Ok(DecodedFrame(ts, ProfinetIrt(frameId, Bit(status, 0), status), StatusFrame(frameId, status)))
  {
    var b := StatusFrame(frameId, status);
    assert b[12] == Eth(ETHERTYPE_PROFINET)[12] && b[13] == Eth(ETHERTYPE_PROFINET)[13];
    assert ReadU16Be(b, 14) == frameId;
  }

  lemma ProfinetFrameParses(ts: u64, frameId: u16, interlock: bool)
    ensures ParseFrame(ts, ProfinetFrame(frameId, interlock)) ==
      var status := if interlock then 1 else 0;
      Ok(DecodedFrame(ts, ProfinetIrt(frameId, interlock, status), ProfinetFrame(frameId, interlock)))
  {
    hide ParseFrame;
    StatusFrameParses(ts, frameId, if interlock then 1 else 0);
  }

  /** The parser finds the transport header behind any options. */
  lemma Ipv4FrameLayout(ts: u64, proto: byte, options: seq<byte>, l4: seq<byte>)
    requires |options| % 4 == 0 && |options| <= 40 && |l4| >= 8
    ensures var b := Ipv4Frame(proto, options, l4); var off := 34 + |options|;
      && |b| == off + |l4| && b[off..] == l4
      && ParseFrame(ts, b) ==
           if proto == IPV4_PROTO_TCP then ParseTcpPorts(ts, b, off)
           else if proto != IPV4_PROTO_UDP then Err(UnhandledEtherType(ETHERTYPE_IPV4))
           else ParseUdp(ts, b, off)
  {
    hide ParseTcpPorts, ParseUdp;
    var b, h := Ipv4Frame(proto, options, l4), Ipv4Header(proto, options);
    assert b[12] == Eth(ETHERTYPE_IPV4)[12] && b[13] == Eth(ETHERTYPE_IPV4)[13];
    assert b[14] == h[0] && b[14 + 9] == h[9];
  }

  /** Every port and payload comes back; only the pose port insists on three coordinates. */
  lemma UdpFrameParses(ts: u64, options: seq<byte>, dstPort: u16, payload: seq<byte>)
    requires |options| % 4 == 0 && |options| <= 40 && |payload| <= 65527
    ensures var b := Ipv4Frame(IPV4_PROTO_UDP, options, UdpDatagram(dstPort, payload));
      ParseFrame(ts, b) ==
        if dstPort != FANUC_POSE_PORT then Ok(DecodedFrame(ts, Ros2Udp(dstPort, |payload|), b))
        else if |payload| < 12 then Err(ShortPayload("FanucUdp", 12, |payload|))
        else Ok(DecodedFrame(ts, FanucUdp(payload[..4], payload[4..8], payload[8..12]), b))
  {
    var d := UdpDatagram(dstPort, payload);
    var b, off := Ipv4Frame(IPV4_PROTO_UDP, options, d), 34 + |options|;
    Ipv4FrameLayout(ts, IPV4_PROTO_UDP, options, d);
    hide ParseFrame, Ipv4Frame, UdpDatagram;
    forall i | 0 <= i < |d| ensures b[off + i] == d[i] {
      assert b[off..][i] == d[i];
    }
    assert ReadU16Be(b, off + 2) == dstPort && ReadU16Be(b, off + 4) == 8 + |payload|;
    if |payload| >= 12 {
      assert b[off + 8..off + 12] == d[8..12] == payload[..4];
      assert b[off + 12..off + 16] == d[12..16] == payload[4..8];
      assert b[off + 16..off + 20] == d[16..20] == payload[8..12];
    }
  }

  /** TCP is accepted exactly on port 102, in either direction. */
  lemma TcpFrameParses(ts: u64, options: seq<byte>, src: u16, dst: u16, more: seq<byte>)
    requires |options| % 4 == 0 && |options| <= 40 && |more| >= 4
    ensures var b := Ipv4Frame(IPV4_PROTO_TCP, options, U16Be(src) + U16Be(dst) + more);
      ParseFrame(ts, b) ==
        if src == 102 || dst == 102 then Ok(DecodedFrame(ts, S7commArrival(102), b))
        else Err(UnhandledEtherType(ETHERTYPE_IPV4))
  {
    var d := U16Be(src) + U16Be(dst) + more;
    var b, off := Ipv4Frame(IPV4_PROTO_TCP, options, d), 34 + |options|;
    Ipv4FrameLayout(ts, IPV4_PROTO_TCP, options, d);
    hide ParseFrame, Ipv4Frame;
    forall i | 0 <= i < 4 ensures b[off + i] == d[i] {
      assert b[off..][i] == d[i];
    }
    assert ReadU16Be(b, off) == src && ReadU16Be(b, off + 2) == dst;
  }
}
