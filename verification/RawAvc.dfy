/**
 The muxing half of SrsRawH264Stream: the AVC sequence header, a length-prefixed coded frame and the FLV video body
 (sections 5.2.4.1 and 5.3.4.2 of ISO/IEC 14496-15), with the readers that take them apart again.
 */
module RawAvc {
  import opened Bytes
  import opened KernelStream

  const NAL_IDR := 5
  const NAL_SPS := 7
  const NAL_PPS := 8

  /** nal_unit_type, the low five bits. */
  function NalType(nal: seq<byte>): int
    requires nal != []
  {
    nal[0] % 32
  }

  const FRAME_KEY: byte := 1
  const FRAME_INTER: byte := 2
  const AVC_SEQUENCE_HEADER: byte := 0
  const AVC_NALU: byte := 1

  /** AVCDecoderConfigurationRecord with one SPS, one PPS and four-byte lengths. */
  function SequenceHeader(sps: seq<byte>, pps: seq<byte>): seq<byte>
    requires |sps| >= 4
  {
    [1, sps[1], 0, sps[3], 3] + ParameterSet(sps) + ParameterSet(pps)
  }

  function LengthPrefixed(nal: seq<byte>): seq<byte> { BigEndian(4, |nal|) + nal }

  /** NAL units one after the other, each behind its length. */
  function Prefixed(nals: seq<seq<byte>>): seq<byte> {
    if nals == [] then [] else Prefixed(nals[..|nals| - 1]) + LengthPrefixed(nals[|nals| - 1])
  }

  /** FLV video body: frame type and codec 7 (AVC), packet type, composition time. */
  function FlvBody(frameType: byte, packetType: byte, dts: int, pts: int, video: seq<byte>): seq<byte>
    requires frameType < 16
  {
    [(frameType * 16 + 7) as byte, packetType] + BigEndian(3, pts - dts) + video
  }

  /** A count of 1, a 16-bit size, the bytes. */
  function ParameterSet(unit: seq<byte>): (r: seq<byte>)
    ensures |r| == 3 + |unit|
  {
    [1] + BigEndian(2, |unit|) + unit
  }

  method WriteParameterSet(stream: SrsStream, unit: seq<byte>)
    requires stream.Valid() && stream.p + 3 + |unit| <= stream.nbBytes
    modifies stream`p, stream.bytes
    ensures stream.p == old(stream.p) + 3 + |unit|
    ensures stream.bytes[..] == Overwrite(old(stream.bytes[..]), old(stream.p), ParameterSet(unit))
  {
    hide BigEndian, Overwrite;
    ghost var was, at := stream.bytes[..], stream.p;
    stream.Write([1]);
    stream.Write(BigEndian(2, |unit|));
    OverwriteTwice(was, at, [1], BigEndian(2, |unit|));
    stream.Write(unit);
    OverwriteTwice(was, at, [1] + BigEndian(2, |unit|), unit);
  }

  method MuxSequenceHeader(sps: seq<byte>, pps: seq<byte>) returns (sh: seq<byte>)
    requires |sps| >= 4
    ensures sh == SequenceHeader(sps, pps)
  {
    hide ParameterSet, Overwrite;
    var nb := 5 + 3 + |sps| + 3 + |pps|;
    var packet := new byte[nb];
    var stream := new SrsStream();
    var ok := stream.Initialize(packet, nb);
    ghost var was := packet[..];
    var head: seq<byte> := [1, sps[1], 0, sps[3], 3];
    stream.Write(head);
    WriteParameterSet(stream, sps);
    OverwriteTwice(was, 0, head, ParameterSet(sps));
    WriteParameterSet(stream, pps);
    OverwriteTwice(was, 0, head + ParameterSet(sps), ParameterSet(pps));
    OverwriteAll(was, SequenceHeader(sps, pps));
    sh := packet[..];
  }

  method MuxIpbFrame(frame: seq<byte>) returns (ibp: seq<byte>)
    ensures ibp == LengthPrefixed(frame)
  {
    hide BigEndian;
    var packet := new byte[4 + |frame|];
    var stream := new SrsStream();
    var ok := stream.Initialize(packet, 4 + |frame|);
    ghost var was := packet[..];
    stream.Write(BigEndian(4, |frame|));
    stream.Write(frame);
    OverwriteTwice(was, 0, BigEndian(4, |frame|), frame);
    ibp := packet[..];
  }

  /** Reads a run of length-prefixed NAL units; None when a length or a unit is cut off. */
  function ReadPrefixed(d: seq<byte>): Option<seq<seq<byte>>> {
    if d == [] then Some([])
    else if |d| < 4 then None
    else
      var n := Be32(d[0], d[1], d[2], d[3]);
      if |d| < 4 + n then None
      else
        var rest := ReadPrefixed(d[4 + n..]);
        if rest == None then None else Some([d[4..4 + n]] + rest.value)
  }

  predicate Lengths32(nals: seq<seq<byte>>) { forall i :: 0 <= i < |nals| ==> |nals[i]| < 0x1_0000_0000 }

  lemma Be32RoundTrip(v: int)
    requires 0 <= v < 0x1_0000_0000
    ensures var b := BigEndian(4, v); Be32(b[0], b[1], b[2], b[3]) == v
  {
    var b := BigEndian(4, v);
    hide BigEndian, Unsigned, Be32, Pow256;
    Unsigned4(b);
    BigEndianRoundTrip(4, v);
    Pow256Of4();
    Small32(v);
  }

  lemma Small32(v: int)
    requires 0 <= v < 0x1_0000_0000
    ensures v % 0x1_0000_0000 == v
  {
  }

  lemma ReadPrefixedOne(nal: seq<byte>, rest: seq<byte>)
    requires |nal| < 0x1_0000_0000
    ensures ReadPrefixed(LengthPrefixed(nal) + rest)
            == var r := ReadPrefixed(rest); if r == None then None else Some([nal] + r.value)
  {
    hide BigEndian, Be32;
    var b := BigEndian(4, |nal|);
    var d := LengthPrefixed(nal) + rest;
    Be32RoundTrip(|nal|);
    assert d == b + (nal + rest);
    assert d[0] == b[0] && d[1] == b[1] && d[2] == b[2] && d[3] == b[3];
    assert d[4..4 + |nal|] == nal && d[4 + |nal|..] == rest;
  }

  lemma {:induction false} PrefixedCons(nal: seq<byte>, nals: seq<seq<byte>>)
    ensures Prefixed([nal] + nals) == LengthPrefixed(nal) + Prefixed(nals)
  {
    hide LengthPrefixed;
    if nals == [] {
      assert ([nal] + nals)[..0] == [];
      assert Prefixed([nal] + nals) == [] + LengthPrefixed(nal);
    } else {
      var front, last := nals[..|nals| - 1], nals[|nals| - 1];
      assert ([nal] + nals)[..|nals|] == [nal] + front;
      PrefixedCons(nal, front);
    }
  }

  /** Length-prefixed NAL units are read back, in order. */
  lemma {:induction false} PrefixedRoundTrip(nals: seq<seq<byte>>)
    requires Lengths32(nals)
    ensures ReadPrefixed(Prefixed(nals)) == Some(nals)
    decreases |nals|
  {
    hide LengthPrefixed;
    if nals != [] {
      assert [nals[0]] + nals[1..] == nals;
      PrefixedCons(nals[0], nals[1..]);
      PrefixedRoundTrip(nals[1..]);
      ReadPrefixedOne(nals[0], Prefixed(nals[1..]));
    }
  }

  lemma PrefixedNil()
    ensures Prefixed([]) == []
  {
  }

  lemma PrefixedSnoc(nals: seq<seq<byte>>, nal: seq<byte>)
    ensures Prefixed(nals + [nal]) == Prefixed(nals) + LengthPrefixed(nal)
  {
    assert (nals + [nal])[..|nals|] == nals;
  }

  // ---------- the sequence header, read back ----------

  /** What avc_demux_sps_pps keeps. */
  datatype AvcConfig = AvcConfig(profile: byte, level: byte, nalUnitLength: int, sps: seq<byte>, pps: seq<byte>)

  /** One parameter set: a count of 1 in five bits, a signed 16-bit length that must be positive, the bytes. */
  function ReadParameterSet(d: seq<byte>, pos: nat): (r: Option<(seq<byte>, nat)>)
    requires pos <= |d|
    ensures r.Some? ==> r.value.1 <= |d|
  {
    if |d| - pos < 3 || d[pos] % 32 != 1 then None
    else
      var n := Signed16(Be16(d[pos + 1], d[pos + 2]));
      if n <= 0 || |d| - pos < 3 + n then None else Some((d[pos + 3..pos + 3 + n], pos + 3 + n))
  }

  /** avc_demux_sps_pps up to the SPS fields; a parameter set of length 0 or below is an assertion of the source and
      None here. */
  function ReadSequenceHeader(d: seq<byte>): Option<AvcConfig> {
    if |d| < 6 || d[4] % 4 == 2 then None
    else
      var s := ReadParameterSet(d, 5);
      if s == None then None
      else
        var p := ReadParameterSet(d, s.value.1);
        if p == None then None else Some(AvcConfig(d[1], d[3], d[4] % 4, s.value.0, p.value.0))
  }

  lemma Be16RoundTrip(v: int)
    requires 0 <= v < 0x8000
    ensures var b := BigEndian(2, v); Signed16(Be16(b[0], b[1])) == v
  {
    assert BigEndian(2, v) == [v / 256 % 256, v % 256] by {
      assert BigEndian(1, v / 256) == [] + [v / 256 % 256];
    }
  }

  lemma ReadsParameterSet(d: seq<byte>, pos: nat, unit: seq<byte>, suffix: seq<byte>)
    requires pos <= |d| && d[pos..] == ParameterSet(unit) + suffix && 0 < |unit| < 0x8000
    ensures ReadParameterSet(d, pos) == Some((unit, pos + 3 + |unit|)) && d[pos + 3 + |unit|..] == suffix
  {
    hide BigEndian, Be16, Signed16;
    var b, rest := BigEndian(2, |unit|), d[pos..];
    Be16RoundTrip(|unit|);
    assert rest == [1] + (b + (unit + suffix));
    forall i | 0 <= i < 3 ensures d[pos + i] == ([1] + b)[i] {
      assert d[pos + i] == rest[i];
    }
    assert |rest| == 3 + |unit| + |suffix| && |d| - pos == |rest|;
    assert d[pos + 3..pos + 3 + |unit|] == unit;
    assert d[pos + 3 + |unit|..] == suffix;
  }

  lemma SequenceHeaderReadsBack(sps: seq<byte>, pps: seq<byte>)
    requires 4 <= |sps| < 0x8000 && 0 < |pps| < 0x8000
    ensures ReadSequenceHeader(SequenceHeader(sps, pps)) == Some(AvcConfig(sps[1], sps[3], 3, sps, pps))
  {
    hide ParameterSet, ReadParameterSet;
    var d := SequenceHeader(sps, pps);
    assert d[5..] == ParameterSet(sps) + ParameterSet(pps);
    ReadsParameterSet(d, 5, sps, ParameterSet(pps));
    assert d[8 + |sps|..] == ParameterSet(pps) + [];
    ReadsParameterSet(d, 8 + |sps|, pps, []);
  }

  lemma Signed16Bound(a: byte, b: byte)
    ensures Signed16(Be16(a, b)) < 0x8000
  {
  }

  /** Whatever is read has a size that a positive int16_t holds. */
  lemma ReadSizeBound(d: seq<byte>, pos: nat)
    requires pos <= |d|
    ensures var r := ReadParameterSet(d, pos); r.Some? ==> 0 < |r.value.0| < 0x8000
  {
    if ReadParameterSet(d, pos).Some? {
      Signed16Bound(d[pos + 1], d[pos + 2]);
    }
    hide Signed16, Be16;
  }

  lemma ReadConfigBound(d: seq<byte>)
    ensures var r := ReadSequenceHeader(d); r.Some? ==> 0 < |r.value.sps| < 0x8000 && 0 < |r.value.pps| < 0x8000
  {
    hide ReadParameterSet;
    if ReadSequenceHeader(d).Some? {
      ReadSizeBound(d, 5);
      ReadSizeBound(d, ReadParameterSet(d, 5).value.1);
    }
  }

  /** Main result: a sequence header gives back both parameter sets, with four-byte lengths, if and only if a positive
      int16_t holds their sizes. */
  lemma SequenceHeaderRoundTrip(sps: seq<byte>, pps: seq<byte>)
    requires |sps| >= 4
    ensures ReadSequenceHeader(SequenceHeader(sps, pps)) == Some(AvcConfig(sps[1], sps[3], 3, sps, pps))
            <==> |sps| < 0x8000 && 0 < |pps| < 0x8000
  {
    hide SequenceHeader, ReadSequenceHeader;
    ReadConfigBound(SequenceHeader(sps, pps));
    if |sps| < 0x8000 && 0 < |pps| < 0x8000 {
      SequenceHeaderReadsBack(sps, pps);
    }
  }

  lemma Be16OfLength(v: nat)
    ensures var b := BigEndian(2, v); Be16(b[0], b[1]) == v % 0x1_0000
  {
    hide Be16;
    Unsigned2(BigEndian(2, v));
    BigEndianRoundTrip(2, v);
    assert Pow256(2) == 0x1_0000;
  }

  /** The two-byte size wraps around, and it is refused when it then is 0 or reads as a negative int16_t. */
  lemma LongSpsIsRefused(sps: seq<byte>, pps: seq<byte>)
    requires |sps| >= 4 && (|sps| % 0x1_0000 == 0 || |sps| % 0x1_0000 >= 0x8000)
    ensures ReadSequenceHeader(SequenceHeader(sps, pps)) == None
  {
    var d, b := SequenceHeader(sps, pps), BigEndian(2, |sps|);
    Be16OfLength(|sps|);
    hide BigEndian, Be16;
    assert ParameterSet(sps) == [1] + b + sps;
    assert d[6] == b[0] && d[7] == b[1];
  }

  // ---------- the FLV video body, read ----------

  /** Frame type, codec, packet type, composition time and what lies behind (section E.4.3 of the FLV format, version
      10.1). */
  datatype VideoBody = VideoBody(frameType: int, codec: int, packetType: int, cts: int, data: seq<byte>)

  /** 24 bits as a signed number. */
  function Signed24(v: int): int { if v >= 0x80_0000 then v - 0x100_0000 else v }

  function ReadVideoBody(d: seq<byte>): Option<VideoBody> {
    if |d| < 5 then None
    else Some(VideoBody(d[0] / 16, d[0] % 16, d[1], Signed24(Be24(d[2], d[3], d[4])), d[5..]))
  }

  /** What the muxer wrote is read; the composition time is pts - dts modulo 2^24. */
  lemma VideoBodyReads(frameType: byte, packetType: byte, dts: int, pts: int, video: seq<byte>)
    requires frameType < 16
    ensures ReadVideoBody(FlvBody(frameType, packetType, dts, pts, video))
            == Some(VideoBody(frameType, 7, packetType, Signed24((pts - dts) % 0x100_0000), video))
  {
    hide BigEndian, Be24, Signed24;
    Be24RoundTrip(pts - dts);
    var d, b := FlvBody(frameType, packetType, dts, pts, video), BigEndian(3, pts - dts);
    assert d[0] == frameType * 16 + 7 && d[2] == b[0] && d[3] == b[1] && d[4] == b[2] && d[5..] == video;
  }

  /** The player's time, dts and the composition time, is pts exactly when the difference fits 24 signed bits; for a
      reader that takes the 24 bits as unsigned, exactly when it fits those. */
  lemma CompositionTimeExactly(dts: int, pts: int)
    ensures dts + Signed24((pts - dts) % 0x100_0000) == pts <==> -0x80_0000 <= pts - dts < 0x80_0000
    ensures dts + (pts - dts) % 0x100_0000 == pts <==> 0 <= pts - dts < 0x100_0000
  {
  }
}
