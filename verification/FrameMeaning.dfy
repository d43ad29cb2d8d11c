/** What the parser makes of the bytes on the wire, and what the node table makes of that. */
module FrameMeaning {
  import opened Basics
  import opened Ingest
  import opened CausalTypes
  import Wire

  /** The two handled EtherTypes, and every other. */
  lemma TypeDecides(ts: u64, b: seq<byte>)
    ensures |b| < Wire.Body(b) ==> ParseFrame(ts, b) == Err(Truncated(|b|))
    ensures Wire.HasType(b, 0x88, 0x92) ==> ParseFrame(ts, b) == ParseProfinet(ts, b, Wire.Body(b))
    ensures Wire.HasType(b, 0x08, 0x00) ==> ParseFrame(ts, b) == ParseIpv4Udp(ts, b, Wire.Body(b))
    ensures |b| >= Wire.Body(b) && !Wire.HasType(b, 0x88, 0x92) && !Wire.HasType(b, 0x08, 0x00) ==>
      ParseFrame(ts, b) == Err(UnhandledEtherType(Wire.U16At(b, Wire.Body(b) - 2)))
  {
    hide ParseProfinet, ParseIpv4Udp;
  }

  lemma CyclicParses(ts: u64, b: seq<byte>)
    requires Wire.HasType(b, 0x88, 0x92)
    ensures ParseProfinet(ts, b, Wire.Body(b)) ==
      if Wire.Cyclic(b)
      then Ok(DecodedFrame(ts, ProfinetIrt(Wire.FrameId(b), Wire.StatusByte(b) % 2 == 1, Wire.StatusByte(b)), b))
      else Err(ShortPayload("ProfinetIrt", Wire.Body(b) + 3, |b|))
  {
  }

  /** IPv4 protocol 17 is UDP, 6 is TCP, and nothing else is handled. */
  lemma Ipv4Parses(ts: u64, b: seq<byte>)
    requires Wire.HasType(b, 0x08, 0x00)
    ensures ParseIpv4Udp(ts, b, Wire.Body(b)) ==
      if !Wire.Ipv4(b) then Err(BadIpv4)
      else if b[Wire.Body(b) + 9] == 17 then ParseUdp(ts, b, Wire.Transport(b))
      else if b[Wire.Body(b) + 9] == 6 then ParseTcpPorts(ts, b, Wire.Transport(b))
      else Err(UnhandledEtherType(0x0800))
  {
    hide ParseUdp, ParseTcpPorts;
  }

  lemma UdpParses(ts: u64, b: seq<byte>)
    requires Wire.Ipv4(b) && b[Wire.Body(b) + 9] == 17
    ensures ParseUdp(ts, b, Wire.Transport(b)) ==
      if !Wire.Udp(b) then Err(BadUdp)
      else if Wire.Topic(b) then Ok(DecodedFrame(ts, Ros2Udp(Wire.DstPort(b), Wire.DatagramLen(b) - 8), b))
      else if Wire.Pose(b) then Ok(DecodedFrame(ts, PoseAt(b, Wire.Transport(b) + 8), b))
      else Err(ShortPayload("FanucUdp", 12, Wire.DatagramLen(b) - 8))
  {
  }

  /** Three four-byte coordinates. */
  function PoseAt(b: seq<byte>, p: nat): IndustrialProtocol
    requires p + 12 <= |b|
  {
    FanucUdp(b[p..p + 4], b[p + 4..p + 8], b[p + 8..p + 12])
  }

  lemma TcpParses(ts: u64, b: seq<byte>)
    requires Wire.Ipv4(b) && b[Wire.Body(b) + 9] == 6
    ensures ParseTcpPorts(ts, b, Wire.Transport(b)) ==
      if Wire.S7(b) then Ok(DecodedFrame(ts, S7commArrival(102), b)) else Err(UnhandledEtherType(0x0800))
  {
  }

  /** The parser accepts exactly the frames it is for, and reads exactly their fields. */
  lemma AcceptedExactly(ts: u64, b: seq<byte>)
    ensures var r := ParseFrame(ts, b);
      && (r.Ok? <==> Wire.Accepted(b))
      && (Wire.Cyclic(b) ==>
            r == Ok(DecodedFrame(ts, ProfinetIrt(Wire.FrameId(b), Wire.StatusByte(b) % 2 == 1, Wire.StatusByte(b)), b)))
      && (Wire.Topic(b) ==> r == Ok(DecodedFrame(ts, Ros2Udp(Wire.DstPort(b), Wire.DatagramLen(b) - 8), b)))
      && (Wire.Pose(b) ==> r == Ok(DecodedFrame(ts, PoseAt(b, Wire.Transport(b) + 8), b)))
      && (Wire.S7(b) ==> r == Ok(DecodedFrame(ts, S7commArrival(102), b)))
  {
    hide ParseFrame, ParseProfinet, ParseIpv4Udp, ParseUdp, ParseTcpPorts;
    TypeDecides(ts, b);
    if Wire.HasType(b, 0x88, 0x92) { CyclicParses(ts, b); }
    if Wire.HasType(b, 0x08, 0x00) { TransportDecides(ts, b); }
  }

  lemma TransportDecides(ts: u64, b: seq<byte>)
    requires Wire.HasType(b, 0x08, 0x00)
    ensures var r := ParseIpv4Udp(ts, b, Wire.Body(b));
      if !Wire.Ipv4(b) then r == Err(BadIpv4)
      else if b[Wire.Body(b) + 9] == 17 then r == ParseUdp(ts, b, Wire.Transport(b)) ==
        (if !Wire.Udp(b) then Err(BadUdp)
         else if Wire.Topic(b) then Ok(DecodedFrame(ts, Ros2Udp(Wire.DstPort(b), Wire.DatagramLen(b) - 8), b))
         else if Wire.Pose(b) then Ok(DecodedFrame(ts, PoseAt(b, Wire.Transport(b) + 8), b))
         else Err(ShortPayload("FanucUdp", 12, Wire.DatagramLen(b) - 8)))
      else r == if Wire.S7(b) then Ok(DecodedFrame(ts, S7commArrival(102), b)) else Err(UnhandledEtherType(0x0800))
  {
    hide ParseIpv4Udp, ParseUdp, ParseTcpPorts;
    Ipv4Parses(ts, b);
    if Wire.Ipv4(b) && b[Wire.Body(b) + 9] == 17 { UdpParses(ts, b); }
    if Wire.Ipv4(b) && b[Wire.Body(b) + 9] == 6 { TcpParses(ts, b); }
  }

  /** And it says of every other frame what is wrong with it. */
  lemma RejectedExactly(ts: u64, b: seq<byte>)
    ensures var r := ParseFrame(ts, b);
      && (|b| < Wire.Body(b) ==> r == Err(Truncated(|b|)))
      && (Wire.HasType(b, 0x88, 0x92) && !Wire.Cyclic(b) ==>
            r == Err(ShortPayload("ProfinetIrt", Wire.Body(b) + 3, |b|)))
      && (|b| >= Wire.Body(b) && !Wire.HasType(b, 0x88, 0x92) && !Wire.HasType(b, 0x08, 0x00) ==>
            r == Err(UnhandledEtherType(Wire.U16At(b, Wire.Body(b) - 2))))
      && (Wire.HasType(b, 0x08, 0x00) && !Wire.Ipv4(b) ==> r == Err(BadIpv4))
      && (Wire.Ipv4(b) && b[Wire.Body(b) + 9] != 17 && !Wire.S7(b) ==> r == Err(UnhandledEtherType(0x0800)))
      && (Wire.Ipv4(b) && b[Wire.Body(b) + 9] == 17 && !Wire.Udp(b) ==> r == Err(BadUdp))
      && (Wire.Udp(b) && !Wire.Topic(b) && !Wire.Pose(b) ==>
            r == Err(ShortPayload("FanucUdp", 12, Wire.DatagramLen(b) - 8)))
  {
    hide ParseFrame, ParseProfinet, ParseIpv4Udp, ParseUdp, ParseTcpPorts;
    TypeDecides(ts, b);
    if Wire.HasType(b, 0x88, 0x92) { CyclicParses(ts, b); }
    if Wire.HasType(b, 0x08, 0x00) { TransportDecides(ts, b); }
  }

  // ---------------------------------------------------------------- classification

  /** No two nodes claim a common frame. */
  ghost predicate Unambiguous(nodes: map<NodeId, NodeMatcher>) {
    forall i, j :: i in nodes && j in nodes && i != j ==> !Overlap(nodes[i], nodes[j])
  }

  /** Where the wire says the frame belongs: a PROFINET node by FrameID, a topic by destination port, the robot by
      its pose port. */
  predicate Addresses(b: seq<byte>, m: NodeMatcher) {
    match m
    case ProfinetFrame(id, _) => Wire.Cyclic(b) && Wire.FrameId(b) == id
    case Ros2Port(port) => Wire.Topic(b) && Wire.DstPort(b) == port
    case FanucPose => Wire.Pose(b)
  }

  /** The level it reports: the node's bit of the status byte, or none. */
  function LevelFor(b: seq<byte>, m: NodeMatcher): Option<bool>
    requires Addresses(b, m)
  {
    match m
    case ProfinetFrame(_, bit) => Some(Wire.BitSet(Wire.StatusByte(b), bit))
    case _ => None
  }

  lemma {:induction false} BitIs(v: nat, k: nat)
    ensures Bit(v, k) <==> v / Pow2(k) % 2 == 1
  {
    if k > 0 {
      BitIs(v / 2, k - 1);
      HalfFirst(v, Pow2(k - 1));
    }
  }

  lemma HalfFirst(v: nat, p: nat)
    requires p > 0
    ensures v / 2 / p == v / (2 * p)
  {
    var q, r := v / (2 * p), v % (2 * p);
    assert v == 2 * p * q + r;
    assert v == 2 * (p * q) + r;
    assert v / 2 == p * q + r / 2 && r / 2 < p;
    QuotientIs(v / 2, p, q, r / 2);
  }

  lemma QuotientIs(n: nat, p: nat, q: nat, r: nat)
    requires p > 0 && n == p * q + r && r < p
    ensures n / p == q
  {
    var d := n / p;
    assert d * p <= n < d * p + p;
    if d < q { MulLe(d + 1, q, p); }
    if d > q { MulLe(q + 1, d, p); }
  }

  /** A node's matcher claims exactly the frames addressed to it, with the level of its own bit. */
  lemma MatchesFromWire(m: NodeMatcher, ts: u64, b: seq<byte>)
    requires m.ShiftInRange() && ParseFrame(ts, b).Ok?
    ensures m.Matches(ParseFrame(ts, b).value) == if Addresses(b, m) then Some(LevelFor(b, m)) else None
  {
    AcceptedExactly(ts, b);
    if m.ProfinetFrame? && Wire.Cyclic(b) {
      BitIs(Wire.StatusByte(b), m.bitIndex);
    }
    hide ParseFrame, Bit, Wire.BitSet;
  }

  /** In a table without overlaps an accepted frame is classified onto the node it is addressed to, with the level
      of that node's bit; and onto none if there is no such node. */
  lemma ClassifiedFromWire(m: DependencyManifest, ts: u64, b: seq<byte>, c: Option<(NodeId, Option<bool>)>)
    requires m.Valid() && Unambiguous(m.nodes)
    requires ParseFrame(ts, b).Ok? && m.MayClassify(ParseFrame(ts, b).value, c)
    ensures forall id :: id in m.nodes && Addresses(b, m.nodes[id]) ==> c == Some((id, LevelFor(b, m.nodes[id])))
    ensures (forall id :: id in m.nodes ==> !Addresses(b, m.nodes[id])) ==> c == None
  {
    hide ParseFrame, NodeMatcher.Matches, Addresses, LevelFor, Overlap;
    forall id | id in m.nodes
      ensures m.nodes[id].Matches(ParseFrame(ts, b).value) ==
        if Addresses(b, m.nodes[id]) then Some(LevelFor(b, m.nodes[id])) else None
    {
      MatchesFromWire(m.nodes[id], ts, b);
    }
    forall i, j | i in m.nodes && j in m.nodes && Addresses(b, m.nodes[i]) && Addresses(b, m.nodes[j]) ensures i == j {
      SharedFrameOverlaps(m.nodes[i], m.nodes[j], ParseFrame(ts, b).value);
    }
  }
}
