/** The toggling bits that discovery reports for a capture, in terms of the captured bytes. */
module CaptureToggles {
  import opened Basics
  import opened Ingest
  import opened PcapFormat
  import opened StreamProfiles
  import opened Discovery
  import opened Harness
  import opened FrameMeaning
  import Wire

  /** The packet is a cyclic frame of this FrameID. */
  predicate CyclicOf(p: Packet, id: u16) {
    Wire.Cyclic(p.bytes) && Wire.FrameId(p.bytes) == id
  }

  /** What a frame of the stream carries behind the FrameID. */
  function ImageOf(p: Packet, id: u16): Option<seq<byte>> {
    if CyclicOf(p, id) then Some(Wire.IoImage(p.bytes)) else None
  }

  /** It carries byte `k` there, with the given value of one bit. */
  predicate HasBit(p: Packet, id: u16, k: nat, bit: nat, value: bool) {
    && CyclicOf(p, id) && k < |Wire.IoImage(p.bytes)|
    && Wire.BitSet(Wire.IoImage(p.bytes)[k], bit) == value
  }

  /** The first cyclic frame of this FrameID. */
  predicate FirstOf(packets: seq<Packet>, id: u16, first: nat) {
    first < |packets| && CyclicOf(packets[first], id) && forall i :: 0 <= i < first ==> !CyclicOf(packets[i], id)
  }

  lemma StreamArrival(p: Packet, id: u16)
    ensures ImageOf(p, id).Some? ==> Filed(p) == Seen(Profinet(id), Arrival(p.tsNs, ImageOf(p, id)))
    ensures ImageOf(p, id).None? ==> !(Filed(p).Seen? && Filed(p).key == Profinet(id))
  {
    FiledFromWire(p);
    hide Filed, Wire.IoImage;
  }

  /** One packet more, in the log of a PROFINET stream. */
  lemma LogNext(packets: seq<Packet>, p: Packet, id: u16)
    ensures var log := ArrivalsOf(FiledAll(packets), Profinet(id));
      ArrivalsOf(FiledAll(packets + [p]), Profinet(id)) ==
        if ImageOf(p, id).Some? then log + [Arrival(p.tsNs, ImageOf(p, id))] else log
  {
    hide ArrivalsOf, Filed, ImageOf;
    FiledNext(packets, p);
    StreamArrival(p, id);
    ArrivalsNext(FiledAll(packets), Filed(p), Profinet(id));
    hide FiledAll;
    var log := ArrivalsOf(FiledAll(packets), Profinet(id));
    assert log + [] == log;
  }

  lemma NothingLogged(packets: seq<Packet>, id: u16)
    requires packets == []
    ensures ArrivalsOf(FiledAll(packets), Profinet(id)) == []
  {
  }

  lemma {:induction false} ObservedOnWire(packets: seq<Packet>, id: u16, image: seq<byte>)
    ensures Observed(ArrivalsOf(FiledAll(packets), Profinet(id)), image) <==>
      exists p :: p in packets && ImageOf(p, id) == Some(image)
  {
    if packets == [] {
      NothingLogged(packets, id);
    } else {
      hide ArrivalsOf, FiledAll, ImageOf, Observed;
      var k := |packets| - 1;
      var init, last := packets[..k], packets[k];
      assert packets == init + [last];
      ObservedOnWire(init, id, image);
      LogNext(init, last, id);
      ObservedNext(ArrivalsOf(FiledAll(init), Profinet(id)), Arrival(last.tsNs, ImageOf(last, id)), image);
      assert last in packets && forall p :: p in packets <==> p in init || p == last;
    }
  }

  lemma {:induction false} ReferenceOnWire(packets: seq<Packet>, id: u16, first: nat)
    requires FirstOf(packets, id, first)
    ensures Reference(ArrivalsOf(FiledAll(packets), Profinet(id))) == Wire.IoImage(packets[first].bytes)
  {
    hide ArrivalsOf, FiledAll, Observed, Reference;
    var k := |packets| - 1;
    var init, last := packets[..k], packets[k];
    assert packets == init + [last];
    var log := ArrivalsOf(FiledAll(init), Profinet(id));
    LogNext(init, last, id);
    if first < k {
      ReferenceOnWire(init, id, first);
    } else {
      NothingBefore(init, id);
    }
    hide Wire.IoImage, Wire.Cyclic, Wire.FrameId;
    if CyclicOf(last, id) {
      ReferenceNext(log, Arrival(last.tsNs, ImageOf(last, id)));
    }
  }

  lemma {:induction false} NothingBefore(packets: seq<Packet>, id: u16)
    requires forall i :: 0 <= i < |packets| ==> !CyclicOf(packets[i], id)
    ensures Reference(ArrivalsOf(FiledAll(packets), Profinet(id))) == []
  {
    if packets == [] {
      NothingLogged(packets, id);
    } else {
      hide ArrivalsOf, FiledAll, CyclicOf, Reference;
      var k := |packets| - 1;
      NothingBefore(packets[..k], id);
      assert packets == packets[..k] + [packets[k]];
      LogNext(packets[..k], packets[k], id);
    }
  }

  lemma BitSetIsBit(v: byte, k: nat)
    ensures Wire.BitSet(v, k) <==> Bit(v, k)
  {
    BitIs(v, k);
  }

  lemma ImageBit(p: Packet, id: u16, image: seq<byte>, k: nat, bit: nat)
    requires ImageOf(p, id) == Some(image) && k < |image|
    ensures HasBit(p, id, k, bit, Bit(image[k], bit))
  {
    BitSetIsBit(image[k], bit);
    hide Wire.BitSet, Bit;
  }

  /** A bit of the stream toggles when one of its frames sets it and another does not. */
  lemma TogglesOnWire(packets: seq<Packet>, id: u16, k: nat, bit: nat)
    ensures Toggles(ArrivalsOf(FiledAll(packets), Profinet(id)), k, bit) <==>
      && (exists p :: p in packets && HasBit(p, id, k, bit, true))
      && (exists p :: p in packets && HasBit(p, id, k, bit, false))
  {
    hide ArrivalsOf, FiledAll, Observed, Bit, Wire.BitSet, ImageOf, HasBit;
    var log := ArrivalsOf(FiledAll(packets), Profinet(id));
    if Toggles(log, k, bit) {
      var a: seq<byte>, b: seq<byte> :|
        Observed(log, a) && Observed(log, b) && k < |a| && k < |b| && Bit(a[k], bit) != Bit(b[k], bit);
      ObservedOnWire(packets, id, a);
      ObservedOnWire(packets, id, b);
      var p :| p in packets && ImageOf(p, id) == Some(a);
      var q :| q in packets && ImageOf(q, id) == Some(b);
      ImageBit(p, id, a, k, bit);
      ImageBit(q, id, b, k, bit);
    }
    if p, q :| p in packets && q in packets && HasBit(p, id, k, bit, true) && HasBit(q, id, k, bit, false) {
      var a, b := BitImage(p, id, k, bit, true), BitImage(q, id, k, bit, false);
      ObservedOnWire(packets, id, a);
      ObservedOnWire(packets, id, b);
    }
  }

  ghost function BitImage(p: Packet, id: u16, k: nat, bit: nat, value: bool): (image: seq<byte>)
    requires HasBit(p, id, k, bit, value)
    ensures ImageOf(p, id) == Some(image) && k < |image| && Bit(image[k], bit) == value
  {
    BitSetIsBit(Wire.IoImage(p.bytes)[k], bit);
    Wire.IoImage(p.bytes)
  }

  /** The bits reported for a PROFINET stream of a capture: those that one of its frames sets and another clears,
      within the length of the first frame. */
  method TogglesOf(disc: DiscoveryEngine, ghost packets: seq<Packet>, id: u16, ghost first: nat)
    returns (out: seq<BitPos>)
    requires disc.Valid() && disc.events == FiledAll(packets) && Profinet(id) in disc.streams
    requires FirstOf(packets, id, first)
    ensures StrictlyOrdered(out)
    ensures forall b :: b in out <==>
      && b.bit < 8 && b.byteIndex < |Wire.IoImage(packets[first].bytes)|
      && (exists p :: p in packets && HasBit(p, id, b.byteIndex, b.bit, true))
      && (exists p :: p in packets && HasBit(p, id, b.byteIndex, b.bit, false))
  {
    hide ArrivalsOf, FiledAll, Toggles, HasBit, TalliesOk, Reference, Wire.IoImage;
    out := disc.streams[Profinet(id)].TogglingBits();
    ReferenceOnWire(packets, id, first);
    forall b: BitPos { TogglesOnWire(packets, id, b.byteIndex, b.bit); }
  }
}
