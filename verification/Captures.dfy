/** Which histories some frames make the engine record: exactly the possible ones; and, as long as the stamps fit
    the format, some capture file does. */
module Captures {
  import opened Basics
  import opened Ingest
  import opened FrameBuilders
  import opened CausalTypes
  import opened History
  import opened Runs
  import opened PcapFormat
  import opened ManifestRun

  lemma {:induction false} LowBits(n: nat, k: nat)
    requires k < n
    ensures Bit(Pow2(n) - 1, k) && !Bit(0, k)
  {
    if k > 0 {
      LowBits(n - 1, k - 1);
      assert (Pow2(n) - 1) / 2 == Pow2(n - 1) - 1;
    }
  }

  /** A frame classified as the given report. */
  lemma ReportFrame(m: DependencyManifest, t: StateTransition) returns (bytes: seq<byte>)
    requires m.Valid() && Reports(m.nodes, t)
    ensures ParseFrame(t.tsNs, bytes).Ok? && |bytes| <= 60
    ensures m.MayClassify(ParseFrame(t.tsNs, bytes).value, Some((t.node, t.interlock)))
  {
    hide ParseFrame, Bit, StatusFrame;
    match m.nodes[t.node]
    case ProfinetFrame(id, bit) =>
      var status: byte := if t.interlock.value then 255 else 0;
      LowBits(8, bit);
      assert Pow2(4) == 16;
      StatusFrameParses(t.tsNs, id, status);
      bytes := StatusFrame(id, status);
    case Ros2Port(port) =>
      UdpFrameParses(t.tsNs, [], port, []);
      bytes := Ipv4Frame(IPV4_PROTO_UDP, [], UdpDatagram(port, []));
    case FanucPose =>
      UdpFrameParses(t.tsNs, [], FANUC_POSE_PORT, Zeros(12));
      bytes := Ipv4Frame(IPV4_PROTO_UDP, [], UdpDatagram(FANUC_POSE_PORT, Zeros(12)));
  }

  /** No accepted frame is a ROS 2 datagram to the pose port. */
  lemma NoTopicOnPosePort(ts: u64, buf: seq<byte>)
    ensures var r := ParseFrame(ts, buf); r.Ok? && r.value.proto.Ros2Udp? ==> r.value.proto.topicPort != FANUC_POSE_PORT
  {
  }

  /** Whatever a frame is classified as is a report its node can make. */
  lemma ClassifiedReports(m: DependencyManifest, ts: u64, bytes: seq<byte>, seqNo: nat, node: NodeId,
                          level: Option<bool>)
    requires m.Valid() && ParseFrame(ts, bytes).Ok?
    requires m.MayClassify(ParseFrame(ts, bytes).value, Some((node, level)))
    ensures Reports(m.nodes, StateTransition(seqNo, node, ts, level))
  {
    NoTopicOnPosePort(ts, bytes);
    hide ParseFrame, Bit;
  }

  lemma {:induction false} RecordedIsPossible(m: DependencyManifest, packets: seq<Packet>, choices: seq<Choice>)
    requires m.Valid() && Allowed(m, packets, choices)
    ensures Possible(m.nodes, HistoryOf(packets, choices))
  {
    hide ParseFrame, DependencyManifest.MayClassify, Reports;
    if packets != [] {
      var k := |packets| - 1;
      RecordedIsPossible(m, packets[..k], choices[..k]);
      var p, h := packets[k], HistoryOf(packets[..k], choices[..k]);
      if choices[k].Some? {
        ClassifiedReports(m, p.tsNs, p.bytes, |h|, choices[k].value.0, choices[k].value.1);
      }
    }
  }

  lemma {:induction false} PossibleIsRecorded(m: DependencyManifest, h: History)
    returns (packets: seq<Packet>, choices: seq<Choice>)
    requires m.Valid() && Possible(m.nodes, h)
    ensures Allowed(m, packets, choices) && HistoryOf(packets, choices) == h
    ensures |packets| == |h|
    ensures forall i :: 0 <= i < |h| ==> packets[i].tsNs == h[i].tsNs && |packets[i].bytes| <= 60 && !packets[i].cut
  {
    hide ParseFrame, DependencyManifest.MayClassify, Reports, Allowed, DependencyManifest.Valid;
    if h == [] {
      packets, choices := [], [];
      NothingRead(m);
    } else {
      var k := |h| - 1;
      var init, t := h[..k], h[k];
      var ps, cs := PossibleIsRecorded(m, init);
      var bytes := ReportFrame(m, t);
      var p, c := Packet(t.tsNs, bytes, false), Some((t.node, t.interlock));
      AllowedLengths(m, ps, cs);
      AllowedNext(m, ps, cs, p, c);
      HistoryNext(ps, cs, p, c);
      packets, choices := ps + [p], cs + [c];
      assert h == init + [t];
    }
  }

  lemma AllowedLengths(m: DependencyManifest, packets: seq<Packet>, choices: seq<Choice>)
    requires m.Valid() && Allowed(m, packets, choices)
    ensures |choices| == |packets|
  {
  }

  /** Some frames, classified in some way the node table allows, make the engine record `h` if and only if
      `h` is possible. */
  lemma PossibleIffRecorded(m: DependencyManifest, h: History)
    requires m.Valid()
    ensures (exists packets, choices :: Allowed(m, packets, choices) && HistoryOf(packets, choices) == h) <==>
            Possible(m.nodes, h)
  {
    hide HistoryOf, Possible, DependencyManifest.Valid;
    if Possible(m.nodes, h) {
      var packets, choices := PossibleIsRecorded(m, h);
    }
    forall packets, choices | Allowed(m, packets, choices) && HistoryOf(packets, choices) == h
      ensures Possible(m.nodes, h)
    {
      RecordedIsPossible(m, packets, choices);
    }
  }

  // ---------------------------------------------------------------- capture files

  /** Nanosecond precision in the writer's byte order. */
  const NANOS := Fmt(false, true)

  /** The packets of an accepted capture file, classified like this, make the engine record `h`. */
  ghost predicate CapturedIn(m: DependencyManifest, data: seq<byte>, choices: seq<Choice>, h: History)
    requires m.Valid()
  {
    && |data| >= GLOBAL_HEADER_LEN && FormatOf(RdU32(Fmt(false, false), data, 0)).Ok?
    && var fmt := FormatOf(RdU32(Fmt(false, false), data, 0)).value;
    var packets := Packets(fmt, data[GLOBAL_HEADER_LEN..]);
    Allowed(m, packets, choices) && HistoryOf(packets, choices) == h
  }

  /** A packet that a nanosecond capture reproduces. */
  predicate Writable(p: Packet) {
    p.tsNs < 0x1_0000_0000 * NS_PER_S && |p.bytes| <= MAX_FRAME && !p.cut
  }

  function ToWrite(p: Packet): (r: Outgoing)
    requires Writable(p)
    ensures r.Sliceable() && r.InclLen() == r.OrigLen() == |p.bytes|
  {
    Outgoing(p.tsNs, None, p.bytes)
  }

  lemma WrittenIsRead(p: Packet)
    requires Writable(p)
    ensures ReadBack(NANOS, ToWrite(p)) == p
  {
    StampRoundTrips(NANOS, ToWrite(p));
    assert p.bytes[..|p.bytes|] == p.bytes;
  }

  lemma {:induction false} AllWrittenAreRead(packets: seq<Packet>) returns (records: seq<Outgoing>)
    requires forall i :: 0 <= i < |packets| ==> Writable(packets[i])
    ensures AllSliceable(records) && Storable(records) == |records| && ReadBackAll(NANOS, records) == packets
  {
    if packets == [] {
      records := [];
    } else {
      var rest := AllWrittenAreRead(packets[1..]);
      WrittenIsRead(packets[0]);
      records := [ToWrite(packets[0])] + rest;
      assert records[1..] == rest && records[0] == ToWrite(packets[0]);
      forall i | 0 <= i < |records| ensures records[i].Sliceable() {
        assert i > 0 ==> records[i] == rest[i - 1];
      }
      assert packets == [packets[0]] + packets[1..];
    }
  }

  /** Some capture file holds exactly these packets. */
  lemma WrittenCapture(packets: seq<Packet>) returns (data: seq<byte>)
    requires forall i :: 0 <= i < |packets| ==> Writable(packets[i])
    ensures |data| >= GLOBAL_HEADER_LEN && FormatOf(RdU32(Fmt(false, false), data, 0)) == Ok(NANOS)
    ensures Packets(NANOS, data[GLOBAL_HEADER_LEN..]) == packets
  {
    hide Writable, GlobalHeader, BodyBytes, RdU32, FormatOf, Packets, ReadBackAll, Storable;
    var records := AllWrittenAreRead(packets);
    var header, body := GlobalHeader(NANOS), BodyBytes(NANOS, records);
    CaptureRoundTrips(NANOS, records);
    assert records[..|records|] == records;
    HeaderRoundTrips(NANOS);
    HeaderOfCapture(header, body);
    data := header + body;
    assert data[GLOBAL_HEADER_LEN..] == body;
  }

  lemma HeaderOfCapture(header: seq<byte>, body: seq<byte>)
    requires |header| >= 4
    ensures RdU32(Fmt(false, true), header, 0) == RdU32(Fmt(false, false), header + body, 0)
  {
    RdU32Prefix(Fmt(false, false), header, body);
  }

  /** Some accepted capture file makes the engine record a given possible history, if its stamps fit. */
  lemma PossibleIsCaptured(m: DependencyManifest, h: History) returns (data: seq<byte>, choices: seq<Choice>)
    requires m.Valid() && Possible(m.nodes, h) && forall t :: t in h ==> t.tsNs < 0x1_0000_0000 * NS_PER_S
    ensures CapturedIn(m, data, choices, h)
  {
    hide DependencyManifest.Valid, Allowed, HistoryOf, Possible, RdU32, FormatOf, Packets;
    var packets;
    packets, choices := PossibleIsRecorded(m, h);
    forall i | 0 <= i < |packets| ensures Writable(packets[i]) {
      assert h[i] in h;
    }
    data := WrittenCapture(packets);
  }

  /** Of the histories whose stamps fit, some accepted capture file makes the engine record exactly the
      possible ones. */
  lemma PossibleIffCaptured(m: DependencyManifest, h: History)
    requires m.Valid() && forall t :: t in h ==> t.tsNs < 0x1_0000_0000 * NS_PER_S
    ensures (exists data, choices :: CapturedIn(m, data, choices, h)) <==> Possible(m.nodes, h)
  {
    hide DependencyManifest.Valid, Allowed, HistoryOf, Possible, RdU32, FormatOf, Packets;
    if Possible(m.nodes, h) {
      var data, choices := PossibleIsCaptured(m, h);
    }
    forall data, choices | CapturedIn(m, data, choices, h) ensures Possible(m.nodes, h) {
      var fmt := FormatOf(RdU32(Fmt(false, false), data, 0)).value;
      RecordedIsPossible(m, Packets(fmt, data[GLOBAL_HEADER_LEN..]), choices);
    }
  }
}
