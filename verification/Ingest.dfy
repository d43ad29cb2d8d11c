/** The frame parser: Ethernet II, at most one 802.1Q tag, then PROFINET, UDP or S7comm over TCP. */
module Ingest {
  import opened Basics

  const ETHERTYPE_PROFINET: u16 := 0x8892
  const ETHERTYPE_IPV4: u16 := 0x0800
  const ETHERTYPE_VLAN: u16 := 0x8100
  const ETH_HDR_LEN: nat := 14
  const VLAN_TAG_LEN: nat := 4
  const IPV4_PROTO_UDP: byte := 17
  const IPV4_PROTO_TCP: byte := 6
  const S7COMM_TCP_PORT: u16 := 102
  const FANUC_POSE_PORT: u16 := 60008

  /** The three Fanuc coordinates stay as their four raw little-endian bytes. */
  datatype IndustrialProtocol =
    | ProfinetIrt(frameId: u16, interlockBit: bool, rawStatusByte: byte)
    | Ros2Udp(topicPort: u16, payloadLen: u16)
    | FanucUdp(xMm: seq<byte>, yMm: seq<byte>, zMm: seq<byte>)
    | S7commArrival(port: u16)

  datatype DecodedFrame = DecodedFrame(tapTsNs: u64, proto: IndustrialProtocol, raw: seq<byte>)

  datatype ParseError =
    | Truncated(length: nat)
    | UnhandledEtherType(ethertype: u16)
    | BadIpv4
    | BadUdp
    | ShortPayload(proto: string, need: nat, have: nat)

  type ParseResult = Result<DecodedFrame, ParseError>

  function ReadU16Be(buf: seq<byte>, off: nat): u16
    requires off + 2 <= |buf|
  {
    buf[off] as int * 0x100 + buf[off + 1]
  }

  function ParseFrame(tapTsNs: u64, buf: seq<byte>): ParseResult {
    if |buf| < ETH_HDR_LEN then Err(Truncated(|buf|))
    else
      var outer := ReadU16Be(buf, 12);
      if outer == ETHERTYPE_VLAN then
        if |buf| < ETH_HDR_LEN + VLAN_TAG_LEN then Err(Truncated(|buf|))
        else Dispatch(tapTsNs, buf, ReadU16Be(buf, 16), ETH_HDR_LEN + VLAN_TAG_LEN)
      else Dispatch(tapTsNs, buf, outer, ETH_HDR_LEN)
  }

  function Dispatch(tapTsNs: u64, buf: seq<byte>, ethertype: u16, l3Offset: nat): ParseResult {
    if ethertype == ETHERTYPE_PROFINET then ParseProfinet(tapTsNs, buf, l3Offset)
    else if ethertype == ETHERTYPE_IPV4 then ParseIpv4Udp(tapTsNs, buf, l3Offset)
    else Err(UnhandledEtherType(ethertype))
  }

  function ParseProfinet(tapTsNs: u64, buf: seq<byte>, l3Offset: nat): ParseResult {
    var need := l3Offset + 3;
    if |buf| < need then Err(ShortPayload("ProfinetIrt", need, |buf|))
    else
      var raw := buf[l3Offset + 2];
      Ok(DecodedFrame(tapTsNs, ProfinetIrt(ReadU16Be(buf, l3Offset), Bit(raw, 0), raw), buf))
  }

  /** `buf[off] & 0x0F`, in 32-bit words. */
  function IhlWords(buf: seq<byte>, off: nat): nat
    requires off < |buf|
  {
    buf[off] % 16
  }

  function ParseIpv4Udp(tapTsNs: u64, buf: seq<byte>, ipOff: nat): ParseResult {
    if |buf| < ipOff + 20 then Err(BadIpv4)
    else
      var hdrLen := IhlWords(buf, ipOff) * 4;
      if IhlWords(buf, ipOff) < 5 || |buf| < ipOff + hdrLen + 8 then Err(BadIpv4)
      else
        var proto := buf[ipOff + 9];
        var l4Off := ipOff + hdrLen;
        if proto == IPV4_PROTO_TCP then ParseTcpPorts(tapTsNs, buf, l4Off)
        else if proto != IPV4_PROTO_UDP then Err(UnhandledEtherType(ETHERTYPE_IPV4))
        else ParseUdp(tapTsNs, buf, l4Off)
  }

  function ParseTcpPorts(tapTsNs: u64, buf: seq<byte>, l4Off: nat): ParseResult {
    if |buf| < l4Off + 4 then Err(BadIpv4)
    else
      var src, dst := ReadU16Be(buf, l4Off), ReadU16Be(buf, l4Off + 2);
      if src == S7COMM_TCP_PORT || dst == S7COMM_TCP_PORT then
        Ok(DecodedFrame(tapTsNs, S7commArrival(if dst == S7COMM_TCP_PORT then dst else src), buf))
      else Err(UnhandledEtherType(ETHERTYPE_IPV4))
  }

  function ParseUdp(tapTsNs: u64, buf: seq<byte>, udpOff: nat): ParseResult
    requires |buf| >= udpOff + 8
  {
    var dstPort := ReadU16Be(buf, udpOff + 2);
    var udpLen := ReadU16Be(buf, udpOff + 4);
    if udpLen < 8 || |buf| < udpOff + udpLen then Err(BadUdp)
    else
      var payloadOff, payloadLen := udpOff + 8, udpLen - 8;
      if dstPort == FANUC_POSE_PORT then
        if payloadLen < 12 then Err(ShortPayload("FanucUdp", 12, payloadLen))
        else
          Ok(DecodedFrame(tapTsNs,
            FanucUdp(buf[payloadOff..payloadOff + 4], buf[payloadOff + 4..payloadOff + 8],
              buf[payloadOff + 8..payloadOff + 12]),
            buf))
      else Ok(DecodedFrame(tapTsNs, Ros2Udp(dstPort, payloadLen), buf))
  }

  // ---------------------------------------------------------------- truncation

  /** Number of leading bytes an accepted frame cannot do without. */
  function NeededLen(buf: seq<byte>): nat
    requires ParseFrame(0, buf).Ok?
  {
    var l3 := if ReadU16Be(buf, 12) == ETHERTYPE_VLAN then 18 else 14;
    if ReadU16Be(buf, l3 - 2) == ETHERTYPE_PROFINET then l3 + 3
    else
      var l4 := l3 + IhlWords(buf, l3) * 4;
      if buf[l3 + 9] == IPV4_PROTO_TCP then l4 + 8 else l4 + ReadU16Be(buf, l4 + 4)
  }

  /** The timestamp is carried along and decides nothing. */
  lemma TimestampIsCarried(ts: u64, buf: seq<byte>)
    ensures ParseFrame(ts, buf).Ok? == ParseFrame(0, buf).Ok?
    ensures ParseFrame(ts, buf).Ok? ==>
      && ParseFrame(ts, buf).value.tapTsNs == ts
      && ParseFrame(ts, buf).value.raw == buf
      && ParseFrame(ts, buf).value.proto == ParseFrame(0, buf).value.proto
    ensures ParseFrame(ts, buf).Err? ==> ParseFrame(ts, buf) == ParseFrame(0, buf)
  {
  }

  /** A snap length keeps an accepted frame accepted exactly from `NeededLen` bytes on, and what it
      decodes to never changes. */
  lemma TruncationExact(ts: u64, buf: seq<byte>, n: nat)
    requires ParseFrame(0, buf).Ok? && n <= |buf|
    ensures ParseFrame(ts, buf[..n]).Ok? <==> n >= NeededLen(buf)
    ensures ParseFrame(ts, buf[..n]).Ok? ==>
      ParseFrame(ts, buf[..n]).value.proto == ParseFrame(0, buf).value.proto
  {
    hide ParseIpv4Udp;
    var cut := buf[..n];
    if n >= 14 {
      assert ReadU16Be(cut, 12) == ReadU16Be(buf, 12);
      var l3 := if ReadU16Be(buf, 12) == ETHERTYPE_VLAN then 18 else 14;
      if n >= l3 {
        assert ReadU16Be(cut, l3 - 2) == ReadU16Be(buf, l3 - 2);
        if ReadU16Be(buf, l3 - 2) == ETHERTYPE_IPV4 {
          Ipv4Truncation(ts, buf, l3, n);
        }
      }
    }
  }

  lemma Ipv4Truncation(ts: u64, buf: seq<byte>, l3: nat, n: nat)
    requires l3 <= n <= |buf| && ParseIpv4Udp(0, buf, l3).Ok?
    ensures var l4 := l3 + IhlWords(buf, l3) * 4;
      var cut := ParseIpv4Udp(ts, buf[..n], l3);
      && (cut.Ok? <==> n >= l4 + if buf[l3 + 9] == IPV4_PROTO_TCP then 8 else ReadU16Be(buf, l4 + 4))
      && (cut.Ok? ==> cut.value.proto == ParseIpv4Udp(0, buf, l3).value.proto)
  {
    var cut := buf[..n];
    if n >= l3 + 20 {
      assert IhlWords(cut, l3) == IhlWords(buf, l3);
      var l4 := l3 + IhlWords(buf, l3) * 4;
      if n >= l4 + 8 {
        assert forall k :: l4 <= k < l4 + 8 ==> cut[k] == buf[k];
        if buf[l3 + 9] == IPV4_PROTO_UDP {
          UdpTruncation(ts, buf, l4, n);
        }
      }
    }
  }

  lemma UdpTruncation(ts: u64, buf: seq<byte>, udpOff: nat, n: nat)
    requires udpOff + 8 <= n <= |buf| && ParseUdp(0, buf, udpOff).Ok?
    ensures var cut := ParseUdp(ts, buf[..n], udpOff);
      && (cut.Ok? <==> n >= udpOff + ReadU16Be(buf, udpOff + 4))
      && (cut.Ok? ==> cut.value.proto == ParseUdp(0, buf, udpOff).value.proto)
  {
    var cut := buf[..n];
    assert ReadU16Be(cut, udpOff + 2) == ReadU16Be(buf, udpOff + 2);
    assert ReadU16Be(cut, udpOff + 4) == ReadU16Be(buf, udpOff + 4);
    var p := udpOff + 8;
    if n >= p + 12 {
      assert cut[p..p + 4] == buf[p..p + 4];
      assert cut[p + 4..p + 8] == buf[p + 4..p + 8];
      assert cut[p + 8..p + 12] == buf[p + 8..p + 12];
    }
  }

  lemma Ipv4PrefixAccepted(prefix: seq<byte>, buf: seq<byte>, l3: nat)
    requires prefix <= buf && ParseIpv4Udp(0, prefix, l3).Ok?
    ensures ParseIpv4Udp(0, buf, l3).Ok?
  {
    var l4 := l3 + IhlWords(prefix, l3) * 4;
    assert IhlWords(buf, l3) == IhlWords(prefix, l3);
    assert forall k :: l4 <= k < l4 + 8 ==> buf[k] == prefix[k];
  }

  /** If a prefix is accepted, the whole frame is accepted with the same protocol fields. */
  lemma PrefixDecidesDecode(ts: u64, prefix: seq<byte>, buf: seq<byte>)
    requires prefix <= buf && ParseFrame(ts, prefix).Ok?
    ensures ParseFrame(ts, buf).Ok?
    ensures ParseFrame(ts, buf).value.proto == ParseFrame(ts, prefix).value.proto
  {
    assert prefix == buf[..|prefix|];
    var l3 := if ReadU16Be(prefix, 12) == ETHERTYPE_VLAN then 18 else 14;
    assert ReadU16Be(buf, 12) == ReadU16Be(prefix, 12);
    assert ReadU16Be(buf, l3 - 2) == ReadU16Be(prefix, l3 - 2);
    TimestampIsCarried(ts, prefix);
    TimestampIsCarried(ts, buf);
    hide ParseIpv4Udp;
    if ReadU16Be(buf, l3 - 2) == ETHERTYPE_IPV4 {
      Ipv4PrefixAccepted(prefix, buf, l3);
    }
    assert ParseFrame(0, buf).Ok?;
    hide ParseFrame;
    TruncationExact(ts, buf, |prefix|);
  }

  // ---------------------------------------------------------------- 802.1Q

  /** Insert one 802.1Q tag (TPID 0x8100 and a two-byte TCI) in front of the EtherType. */
  function InsertTag(buf: seq<byte>, tci0: byte, tci1: byte): seq<byte>
    requires |buf| >= 14
  {
    buf[..12] + [0x81, 0x00, tci0, tci1] + buf[12..]
  }

  /** The same outcome, with the lengths in the errors moved by the tag's four bytes. */
  predicate SameUpToTag(plain: ParseResult, tagged: ParseResult) {
    match (plain, tagged)
    case (Ok(f), Ok(g)) => f.proto == g.proto && f.tapTsNs == g.tapTsNs
    case (Err(ShortPayload(p, need, have)), Err(ShortPayload(p', need', have'))) =>
      p == p' && need' - need == have' - have && need' - need in {0, 4}
    case (Err(e), Err(e')) => e == e'
    case _ => false
  }

  lemma TaggedBytes(buf: seq<byte>, tci0: byte, tci1: byte)
    requires |buf| >= 14
    ensures var t := InsertTag(buf, tci0, tci1);
      && |t| == |buf| + 4
      && ReadU16Be(t, 12) == ETHERTYPE_VLAN
      && (forall i :: 12 <= i < |buf| ==> t[i + 4] == buf[i])
      && (forall i, j :: 12 <= i <= j <= |buf| ==> t[i + 4..j + 4] == buf[i..j])
  {
    var t := InsertTag(buf, tci0, tci1);
    assert forall i :: 12 <= i < |buf| ==> t[i + 4] == buf[i];
    forall i, j | 12 <= i <= j <= |buf|
      ensures t[i + 4..j + 4] == buf[i..j]
    {
      forall k | 0 <= k < j - i
        ensures t[i + 4..j + 4][k] == buf[i..j][k]
      {
        assert t[(i + k) + 4] == buf[i + k];
      }
    }
  }

  /** Tagging an untagged frame never changes its decode; tagging an already tagged one always makes
      the parser reject it. */
  lemma VlanTransparent(ts: u64, buf: seq<byte>, tci0: byte, tci1: byte)
    requires |buf| >= 14
    ensures ReadU16Be(buf, 12) != ETHERTYPE_VLAN ==>
      SameUpToTag(ParseFrame(ts, buf), ParseFrame(ts, InsertTag(buf, tci0, tci1)))
    ensures ReadU16Be(buf, 12) == ETHERTYPE_VLAN ==>
      ParseFrame(ts, InsertTag(buf, tci0, tci1)) == Err(UnhandledEtherType(ETHERTYPE_VLAN))
  {
    var t := InsertTag(buf, tci0, tci1);
    TaggedBytes(buf, tci0, tci1);
    assert t[16] == buf[12] && t[17] == buf[13];
    assert ReadU16Be(t, 16) == ReadU16Be(buf, 12);
    if ReadU16Be(buf, 12) == ETHERTYPE_PROFINET && |buf| >= 17 {
      assert t[18] == buf[14] && t[19] == buf[15] && t[20] == buf[16];
    } else if ReadU16Be(buf, 12) == ETHERTYPE_IPV4 {
      Ipv4ShiftsByTag(ts, buf, t);
    }
  }

  lemma ShiftedU16(buf: seq<byte>, t: seq<byte>, off: nat)
    requires 12 <= off && off + 2 <= |buf| && |t| == |buf| + 4
    requires forall i :: 12 <= i < |buf| ==> t[i + 4] == buf[i]
    ensures ReadU16Be(t, off + 4) == ReadU16Be(buf, off)
  {
    assert t[off + 4] == buf[off] && t[(off + 1) + 4] == buf[off + 1];
  }

  lemma Ipv4ShiftsByTag(ts: u64, buf: seq<byte>, t: seq<byte>)
    requires |buf| >= 14 && |t| == |buf| + 4
    requires forall i :: 12 <= i < |buf| ==> t[i + 4] == buf[i]
    requires forall i, j :: 12 <= i <= j <= |buf| ==> t[i + 4..j + 4] == buf[i..j]
    ensures SameUpToTag(ParseIpv4Udp(ts, buf, 14), ParseIpv4Udp(ts, t, 18))
  {
    if |buf| >= 34 {
      assert t[14 + 4] == buf[14] && t[23 + 4] == buf[23];
      var l4 := 14 + IhlWords(buf, 14) * 4;
      if |buf| >= l4 + 8 && IhlWords(buf, 14) >= 5 {
        ShiftedU16(buf, t, l4);
        ShiftedU16(buf, t, l4 + 2);
        ShiftedU16(buf, t, l4 + 4);
        if buf[23] == IPV4_PROTO_UDP {
          UdpShiftsByTag(ts, buf, t, l4);
        }
      }
    }
  }

  lemma UdpShiftsByTag(ts: u64, buf: seq<byte>, t: seq<byte>, udpOff: nat)
    requires 12 <= udpOff && udpOff + 8 <= |buf| && |t| == |buf| + 4
    requires ReadU16Be(t, udpOff + 4 + 2) == ReadU16Be(buf, udpOff + 2)
    requires ReadU16Be(t, udpOff + 4 + 4) == ReadU16Be(buf, udpOff + 4)
    requires forall i, j :: 12 <= i <= j <= |buf| ==> t[i + 4..j + 4] == buf[i..j]
    ensures SameUpToTag(ParseUdp(ts, buf, udpOff), ParseUdp(ts, t, udpOff + 4))
  {
    var p := udpOff + 8;
    if |buf| >= p + 12 {
      assert t[p + 4..p + 8] == buf[p..p + 4] by { assert t[p + 4..(p + 4) + 4] == buf[p..p + 4]; }
      assert t[p + 8..p + 12] == buf[p + 4..p + 8] by { assert t[(p + 4) + 4..(p + 8) + 4] == buf[p + 4..p + 8]; }
      assert t[p + 12..p + 16] == buf[p + 8..p + 12] by { assert t[(p + 8) + 4..(p + 12) + 4] == buf[p + 8..p + 12]; }
    }
  }
}
