/** What the bytes of a capture file say, in the numbers of draft-ietf-opsawg-pcap (sections 4 and 5). This is the
    reference both readers and the writer are measured against. */
module CaptureBytes {
  import opened Basics
  import opened PcapFormat

  /** Four bytes as a number, the least significant first, or last in a big-endian file. */
  function Word(b: seq<byte>, i: nat, bigEndian: bool): int
    requires i + 4 <= |b|
  {
    if bigEndian then b[i] as int * 16777216 + b[i + 1] as int * 65536 + b[i + 2] as int * 256 + b[i + 3] as int
    else b[i] as int + b[i + 1] as int * 256 + b[i + 2] as int * 65536 + b[i + 3] as int * 16777216
  }

  lemma WordIsRead(fmt: Fmt, b: seq<byte>, i: nat)
    requires i + 4 <= |b|
    ensures RdU32(fmt, b, i) == Word(b, i, fmt.swapped)
  {
  }

  /** A file is recognised by its first four bytes. */
  lemma MagicBytes(data: seq<byte>)
    requires |data| >= 4
    ensures var magic, r := data[..4], FormatOf(RdU32(Fmt(false, false), data, 0));
      && (magic == [0xd4, 0xc3, 0xb2, 0xa1] <==> r == Ok(Fmt(false, false)))
      && (magic == [0xa1, 0xb2, 0xc3, 0xd4] <==> r == Ok(Fmt(true, false)))
      && (magic == [0x4d, 0x3c, 0xb2, 0xa1] <==> r == Ok(Fmt(false, true)))
      && (magic == [0xa1, 0xb2, 0x3c, 0x4d] <==> r == Ok(Fmt(true, true)))
      && (magic == [0x0a, 0x0d, 0x0d, 0x0a] <==> r == Err(IsPcapng))
      && (r.Err? && r.error.BadMagic? ==> r.error.magic == Word(data, 0, false))
  {
    WordIsRead(Fmt(false, false), data, 0);
  }

  /** What stands at the head of the records: a sixteen-byte header of seconds, fraction, stored and original
      length, then the stored bytes. More than 262144 stored bytes are not believed. */
  lemma RecordAtHead(fmt: Fmt, rest: seq<byte>)
    ensures Head(fmt, rest) ==
      if |rest| == 0 then End
      else if |rest| < 16 then PartialHeader
      else
        var sec, frac := Word(rest, 0, fmt.swapped), Word(rest, 4, fmt.swapped);
        var stored, original := Word(rest, 8, fmt.swapped), Word(rest, 12, fmt.swapped);
        if stored > 262144 then Implausible(stored)
        else if |rest| < 16 + stored then PartialBody(stored, |rest| - 16)
        else Record(Packet(sec * 1000000000 + (if fmt.nanos then frac else frac * 1000), rest[16..16 + stored],
                           stored < original))
    ensures Head(fmt, rest).Record? ==>
      Tail(rest, Head(fmt, rest).packet) == rest[16 + Word(rest, 8, fmt.swapped)..]
  {
    if |rest| >= 16 {
      WordIsRead(fmt, rest, 0);
      WordIsRead(fmt, rest, 4);
      WordIsRead(fmt, rest, 8);
      WordIsRead(fmt, rest, 12);
    }
    hide RdU32, Word;
  }

  /** The microsecond magic, version 2.4, two zero words, snap length 65535, Ethernet. */
  predicate IsHeader(h: seq<byte>) {
    && |h| == 24 && Word(h, 0, false) == 0xa1b2c3d4
    && h[4] == 2 && h[5] == 0 && h[6] == 4 && h[7] == 0
    && Word(h, 8, false) == 0 && Word(h, 12, false) == 0 && Word(h, 16, false) == 65535 && Word(h, 20, false) == 1
  }

  lemma WordOfSlice(b: seq<byte>, i: nat, w: seq<byte>)
    requires i + 4 <= |b| && b[i..i + 4] == w
    ensures |w| == 4 && Word(b, i, false) == Word(w, 0, false)
  {
    assert w[0] == b[i] && w[1] == b[i + 1] && w[2] == b[i + 2] && w[3] == b[i + 3];
  }

  lemma Parts(m: seq<byte>, a: seq<byte>, b: seq<byte>, c: seq<byte>, d: seq<byte>, e: seq<byte>)
    requires |m| == |c| == |d| == |e| == 4 && |a| == |b| == 2
    ensures var h := m + (a + b + c + c + d + e);
      && |h| == 24 && h[0..4] == m && h[4..6] == a && h[6..8] == b
      && h[8..12] == c && h[12..16] == c && h[16..20] == d && h[20..24] == e
  {
  }

  lemma HeaderFromParts(m: seq<byte>, a: seq<byte>, b: seq<byte>, c: seq<byte>, d: seq<byte>, e: seq<byte>)
    requires |m| == |c| == |d| == |e| == 4 && |a| == |b| == 2
    requires Word(m, 0, false) == 0xa1b2c3d4 && Word(c, 0, false) == 0
    requires Word(d, 0, false) == 65535 && Word(e, 0, false) == 1
    requires a[0] == 2 && a[1] == 0 && b[0] == 4 && b[1] == 0
    ensures IsHeader(m + (a + b + c + c + d + e))
  {
    Parts(m, a, b, c, d, e);
    var h := m + (a + b + c + c + d + e);
    hide Word;
    WordOfSlice(h, 0, m);
    WordOfSlice(h, 8, c);
    WordOfSlice(h, 12, c);
    WordOfSlice(h, 16, d);
    WordOfSlice(h, 20, e);
    assert h[4] == h[4..6][0] && h[5] == h[4..6][1] && h[6] == h[6..8][0] && h[7] == h[6..8][1];
  }

  /** The header the writer puts in front. */
  lemma HeaderWritten(fmt: Fmt)
    requires !fmt.swapped && !fmt.nanos
    ensures IsHeader(GlobalHeader(fmt))
  {
    hide U32Bytes, RdU32, IsHeader, Word;
    var m, c, d, e := U32Bytes(fmt, PCAP_MAGIC_USEC_LE), U32Bytes(fmt, 0), U32Bytes(fmt, 65535), U32Bytes(fmt, 1);
    WordIsRead(fmt, m, 0);
    WordIsRead(fmt, c, 0);
    WordIsRead(fmt, d, 0);
    WordIsRead(fmt, e, 0);
    HeaderFromParts(m, U16Bytes(fmt, 2), U16Bytes(fmt, 4), c, d, e);
  }

  /** The record the writer appends: whole seconds, microseconds, stored and original length, stored bytes. */
  lemma RecordWritten(r: Outgoing)
    requires r.Sliceable()
    ensures var b := RecordBytes(Fmt(false, false), r);
      && |b| == 16 + r.InclLen() && b[16..] == r.frame[..r.InclLen()]
      && Word(b, 0, false) == r.tsNs / 1000000000 % 4294967296
      && Word(b, 4, false) == r.tsNs % 1000000000 / 1000
      && Word(b, 8, false) == (if r.stored.Some? then r.stored.value else |r.frame|) % 4294967296
      && Word(b, 12, false) == |r.frame| % 4294967296
  {
    hide U32Bytes, RdU32, Word;
    var fmt := Fmt(false, false);
    var b := RecordBytes(fmt, r);
    RecordLayout(fmt, r, []);
    assert b + [] == b;
    WordIsRead(fmt, b, 0);
    WordIsRead(fmt, b, 4);
    WordIsRead(fmt, b, 8);
    WordIsRead(fmt, b, 12);
    hide RecordBytes;
  }
}
