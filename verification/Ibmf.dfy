/**
 Length-prefixed NAL units (section 5.3.4.2 of ISO/IEC 14496-15) in avc_demux_ibmf_format, and the format guess of
 video_avc_demux.
 */
module Ibmf {
  import opened Bytes
  import opened KernelStream
  import opened AnnexB
  import opened RawAvc

  /** NAL_unit_length: lengths of one more byte than this. The value 2 is refused by the sequence header. */
  type LengthSize = n: int | n == 0 || n == 1 || n == 3

  function Signed8(v: int): int { if v < 0x80 then v else v - 0x100 }

  /** The length in front of a unit, as the signed integer that the reader gets. */
  function LengthAt(d: seq<byte>, pos: nat, size: LengthSize): int
    requires pos + size + 1 <= |d|
  {
    if size == 3 then Signed32(Be32(d[pos], d[pos + 1], d[pos + 2], d[pos + 3]))
    else if size == 1 then Signed16(Be16(d[pos], d[pos + 1]))
    else Signed8(d[pos])
  }

  /** How the loop ends; a unit of length 0 asserts. */
  datatype End = Done | Failed | Asserts

  /** One unit: it is there, it is broken off or has a negative length, or its length is 0. */
  datatype Found = Unit(bytes: seq<byte>, next: nat) | Broken | Zero

  function UnitAt(d: seq<byte>, pos: nat, size: LengthSize): (r: Found)
    requires pos <= |d|
    ensures r.Unit? ==> pos < r.next <= |d|
  {
    if |d| - pos < size + 1 then Broken
    else
      var n, start := LengthAt(d, pos, size), pos + size + 1;
      if n < 0 then Broken
      else if n == 0 then Zero
      else if |d| - start < n then Broken
      else Unit(d[start..start + n], start + n)
  }

  /** The units from `pos` on, in order, and the end of the loop; `room` more units fit into the sample. */
  function ReadUnits(d: seq<byte>, pos: nat, size: LengthSize, room: nat): (r: (seq<seq<byte>>, End))
    requires pos <= |d|
    ensures |r.0| <= room
    decreases |d| - pos
  {
    if pos == |d| then ([], Done)
    else
      match UnitAt(d, pos, size)
      case Broken => ([], Failed)
      case Zero => ([], Asserts)
      case Unit(bytes, next) =>
        if room == 0 then ([], Failed)
        else
          var rest := ReadUnits(d, next, size, room - 1);
          ([bytes] + rest.0, rest.1)
  }

  method ReadLength(stream: SrsStream, size: LengthSize) returns (n: int)
    requires stream.Valid() && stream.Require(size + 1)
    modifies stream`p
    ensures stream.Valid() && stream.Data() == old(stream.Data()) && stream.p == old(stream.p) + size + 1
    ensures n == LengthAt(stream.Data(), old(stream.p), size)
  {
    if size == 3 {
      n := stream.Read4();
      n := Signed32(n);
    } else if size == 1 {
      n := stream.Read2();
      n := Signed16(n);
    } else {
      var b := stream.Read1();
      n := Signed8(b);
    }
  }

  method ReadUnit(stream: SrsStream, size: LengthSize) returns (ok: bool, unit: seq<byte>)
    requires stream.Valid() && stream.p <= stream.nbBytes
    requires UnitAt(stream.Data(), stream.p, size) != Zero
    modifies stream`p
    ensures stream.Valid() && stream.Data() == old(stream.Data())
    ensures ok <==> UnitAt(stream.Data(), old(stream.p), size).Unit?
    ensures ok ==> UnitAt(stream.Data(), old(stream.p), size) == Unit(unit, stream.p)
  {
    hide LengthAt;
    if !stream.Require(size + 1) {
      return false, [];
    }
    var n := ReadLength(stream, size);
    if n < 0 {
      return false, [];
    }
    if !stream.Require(n) {
      return false, [];
    }
    var from := stream.p;
    unit := stream.bytes[from..from + n];
    assert unit == stream.bytes[..stream.nbBytes][from..from + n];
    assert unit == stream.Data()[from..from + n];
    stream.Skip(n);
    ok := true;
  }

  /** avc_demux_ibmf_format. */
  method AvcDemuxIbmfFormat(stream: SrsStream, sample: Sample, size: LengthSize) returns (ok: bool)
    requires stream.Valid() && stream.p <= stream.nbBytes && |sample.units| <= MAX_UNITS
    requires ReadUnits(stream.Data(), stream.p, size, MAX_UNITS - |sample.units|).1 != Asserts
    modifies stream`p, sample
    ensures var r := ReadUnits(old(stream.Data()), old(stream.p), size, MAX_UNITS - |old(sample.units)|);
            sample.units == old(sample.units) + r.0 && ok == (r.1 == Done)
  {
    hide UnitAt;
    ghost var d, was := stream.Data(), sample.units;
    ghost var all := ReadUnits(d, stream.p, size, MAX_UNITS - |was|);
    var i, length := 0, stream.nbBytes - stream.p;
    while i < length
      invariant stream.Valid() && stream.Data() == d && stream.p <= |d| && i == stream.p - old(stream.p)
      invariant |sample.units| <= MAX_UNITS
      invariant var left := ReadUnits(d, stream.p, size, MAX_UNITS - |sample.units|);
                left.1 == all.1 && was + all.0 == sample.units + left.0
      decreases length - i
    {
      assert sample.units + [] == sample.units;
      var start := stream.p;
      var found, unit := ReadUnit(stream, size);
      if !found {
        return false;
      }
      ghost var units := sample.units;
      var added := sample.AddSampleUnit(unit);
      if !added {
        return false;
      }
      ghost var left := ReadUnits(d, stream.p, size, MAX_UNITS - |sample.units|);
      assert units + ([unit] + left.0) == sample.units + left.0;
      i := i + (stream.p - start);
    }
    assert sample.units + [] == sample.units;
    ok := true;
  }

  // ---------- written frames ----------

  /** Coded frames that mux_ipb_frame can prefix with a positive int32_t. */
  predicate Frames(nals: seq<seq<byte>>) { forall i :: 0 <= i < |nals| ==> 0 < |nals[i]| < 0x8000_0000 }

  lemma LengthOfWritten(d: seq<byte>, pos: nat, nal: seq<byte>, suffix: seq<byte>)
    requires pos <= |d| && d[pos..] == LengthPrefixed(nal) + suffix && |nal| < 0x8000_0000
    ensures pos + 4 + |nal| <= |d| && LengthAt(d, pos, 3) == |nal|
    ensures d[pos + 4..pos + 4 + |nal|] == nal && d[pos + 4 + |nal|..] == suffix
  {
    hide BigEndian, Be32, Signed32;
    var b, tail := BigEndian(4, |nal|), d[pos..];
    Signed32RoundTrip(b, |nal|);
    assert tail == b + (nal + suffix);
    forall i | 0 <= i < 4 ensures d[pos + i] == b[i] {
      assert d[pos + i] == tail[i];
    }
    assert d[pos + 4..pos + 4 + |nal|] == tail[4..4 + |nal|] == nal;
    assert d[pos + 4 + |nal|..] == tail[4 + |nal|..] == suffix;
  }

  lemma {:induction false} ReadsWrittenFrames(d: seq<byte>, pos: nat, nals: seq<seq<byte>>, room: nat)
    requires pos <= |d| && d[pos..] == Prefixed(nals) && Frames(nals)
    ensures var r := ReadUnits(d, pos, 3, room);
            if |nals| <= room then r == (nals, Done) else r == (nals[..room], Failed)
    decreases |nals|
  {
    hide LengthPrefixed, LengthAt, Prefixed;
    PrefixedNil();
    if nals != [] {
      assert [nals[0]] + nals[1..] == nals;
      PrefixedCons(nals[0], nals[1..]);
      LengthOfWritten(d, pos, nals[0], Prefixed(nals[1..]));
      if room > 0 {
        ReadsWrittenFrames(d, pos + 4 + |nals[0]|, nals[1..], room - 1);
        if |nals| > room {
          assert [nals[0]] + nals[1..][..room - 1] == nals[..room];
        }
      }
    }
  }

  /** Main result: with four-byte lengths the reader gives back every list of at most 128 coded frames, and of a longer
      list the first 128 and an error. */
  lemma IbmfRoundTrip(nals: seq<seq<byte>>)
    requires Frames(nals)
    ensures var r := ReadUnits(Prefixed(nals), 0, 3, MAX_UNITS);
            if |nals| <= MAX_UNITS then r == (nals, Done) else r == (nals[..MAX_UNITS], Failed)
  {
    assert Prefixed(nals)[0..] == Prefixed(nals);
    ReadsWrittenFrames(Prefixed(nals), 0, nals, MAX_UNITS);
  }

  // ---------- the format guess ----------

  datatype Format = Guess | IbmfFormat | AnnexbFormat

  /** The NALU branch of video_avc_demux: the new format, the units of the sample, and the end. */
  datatype Demux = Demux(format: Format, units: seq<seq<byte>>, end: End)

  function DemuxPayload(format: Format, d: seq<byte>, pos: nat, size: LengthSize): Demux
    requires pos <= |d|
  {
    var ibmf := ReadUnits(d, pos, size, MAX_UNITS);
    if format == IbmfFormat || StartCode(d, pos) == 0 then
      Demux(if ibmf.1 == Done then IbmfFormat else format, ibmf.0, ibmf.1)
    else
      var frames := NonEmptyFrames(Split(d, pos));
      if |frames| <= MAX_UNITS then Demux(AnnexbFormat, frames, Done)
      else Demux(format, frames[..MAX_UNITS], Failed)
  }

  class SrsAvcAacCodec {
    const size: LengthSize
    var payloadFormat: Format

    constructor (nalUnitLength: LengthSize)
      ensures payloadFormat == Guess && size == nalUnitLength
    {
      size := nalUnitLength;
      payloadFormat := Guess;
    }

    /** Try Annex B first, unless the format is known to be ibmf. */
    method DemuxNalus(stream: SrsStream, sample: Sample) returns (ok: bool)
      requires stream.Valid() && stream.p <= stream.nbBytes && sample.units == []
      requires DemuxPayload(payloadFormat, stream.Data(), stream.p, size).end != Asserts
      modifies this, stream`p, sample
      ensures DemuxPayload(old(payloadFormat), old(stream.Data()), old(stream.p), size)
              == Demux(payloadFormat, sample.units, if ok then Done else Failed)
    {
      hide StartCode, NonEmptyFrames, ReadUnits;
      if payloadFormat == IbmfFormat {
        ok := AvcDemuxIbmfFormat(stream, sample, size);
        return;
      }
      var r := AvcDemuxAnnexbFormat(stream, sample);
      if r == TryOthers {
        ok := AvcDemuxIbmfFormat(stream, sample, size);
        if ok {
          payloadFormat := IbmfFormat;
        }
      } else {
        ok := r == Demuxed;
        if ok && payloadFormat == Guess {
          payloadFormat := AnnexbFormat;
        }
      }
    }
  }

  /** The first length reads as a start code. */
  predicate StartsLikeAnnexB(nals: seq<seq<byte>>)
    requires nals != []
  {
    |nals[0]| == 1 || 256 <= |nals[0]| < 512
  }

  /** Written frames look like Annex B exactly when the first has length 1 or from 256 to 511. */
  lemma LooksLikeAnnexB(d: seq<byte>, pos: nat, nals: seq<seq<byte>>)
    requires pos <= |d| && d[pos..] == Prefixed(nals) && Frames(nals) && nals != []
    ensures StartCode(d, pos) > 0 <==> StartsLikeAnnexB(nals)
  {
    hide Prefixed, BigEndian, Be32;
    assert [nals[0]] + nals[1..] == nals;
    PrefixedCons(nals[0], nals[1..]);
    var n, b, tail := |nals[0]|, BigEndian(4, |nals[0]|), d[pos..];
    assert tail == b + (nals[0] + Prefixed(nals[1..]));
    Be32RoundTrip(n);
    forall i | 0 <= i < 4 ensures d[pos + i] == b[i] {
      assert d[pos + i] == tail[i];
    }
    FourBytes(d, pos, n);
  }

  lemma FourBytes(d: seq<byte>, pos: nat, n: nat)
    requires pos + 5 <= |d| && 0 < n == Be32(d[pos], d[pos + 1], d[pos + 2], d[pos + 3])
    ensures StartCode(d, pos) > 0 <==> n == 1 || 256 <= n < 512
  {
    if d[pos] == 0 && d[pos + 1] == 0 && d[pos + 2] == 0 {
      assert d[pos + 3] == n;
      if d[pos + 3] != 1 {
        assert StartCode(d, pos + 2) == 0 && StartCode(d, pos + 1) == 0;
      } else {
        assert StartCode(d, pos + 1) == 3;
      }
    }
  }

  /** Once ibmf, always ibmf. */
  lemma IbmfIsPermanent(d: seq<byte>, pos: nat, size: LengthSize)
    requires pos <= |d|
    ensures DemuxPayload(IbmfFormat, d, pos, size).format == IbmfFormat
  {
    hide ReadUnits, StartCode, Split;
  }

  /** A picture as RTMP carries it: the five bytes of the video header, then the frames. */
  datatype Picture = Picture(frameType: byte, dts: int, pts: int, nals: seq<seq<byte>>)

  function Body(p: Picture): (r: seq<byte>)
    requires p.frameType < 16
    ensures |r| >= 5
  {
    FlvBody(p.frameType, AVC_NALU, p.dts, p.pts, Prefixed(p.nals))
  }

  predicate Writable(p: Picture) { p.frameType < 16 && Frames(p.nals) && 0 < |p.nals| <= MAX_UNITS }

  /** Written frames settle the format on ibmf exactly when they do not look like Annex B, and are then read back. */
  lemma GuessIsRightExactly(format: Format, p: Picture)
    requires Writable(p)
    ensures var r := DemuxPayload(format, Body(p), 5, 3);
            && (r.format == IbmfFormat <==> format == IbmfFormat || !StartsLikeAnnexB(p.nals))
            && (r.format == IbmfFormat ==> r == Demux(IbmfFormat, p.nals, Done))
  {
    hide ReadUnits, StartCode, Split, NonEmptyFrames, Prefixed, StartsLikeAnnexB;
    var d := Body(p);
    assert d[5..] == Prefixed(p.nals);
    LooksLikeAnnexB(d, 5, p.nals);
    ReadsWrittenFrames(d, 5, p.nals, MAX_UNITS);
  }

  /** A run of pictures through one codec. */
  function DemuxRun(format: Format, pictures: seq<Picture>): seq<Demux>
    requires forall i :: 0 <= i < |pictures| ==> Writable(pictures[i])
    decreases |pictures|
  {
    if pictures == [] then []
    else
      assert Writable(pictures[0]);
      var r := DemuxPayload(format, Body(pictures[0]), 5, 3);
      [r] + DemuxRun(r.format, pictures[1..])
  }

  function Wanted(pictures: seq<Picture>): seq<Demux>
    decreases |pictures|
  {
    if pictures == [] then [] else [Demux(IbmfFormat, pictures[0].nals, Done)] + Wanted(pictures[1..])
  }

  lemma {:induction false} IbmfRunRoundTrips(pictures: seq<Picture>)
    requires forall i :: 0 <= i < |pictures| ==> Writable(pictures[i])
    ensures DemuxRun(IbmfFormat, pictures) == Wanted(pictures)
    decreases |pictures|
  {
    hide DemuxPayload, Body, Writable;
    if pictures != [] {
      GuessIsRightExactly(IbmfFormat, pictures[0]);
      IbmfRunRoundTrips(pictures[1..]);
    }
  }

  /** Main result: from the first guess on, every picture of a run comes back unit by unit exactly when the first NAL
      unit of the first picture does not start like Annex B. */
  lemma GuessedRunRoundTripsExactly(pictures: seq<Picture>)
    requires forall i :: 0 <= i < |pictures| ==> Writable(pictures[i])
    requires pictures != []
    ensures DemuxRun(Guess, pictures) == Wanted(pictures) <==> !StartsLikeAnnexB(pictures[0].nals)
  {
    var p, rest := pictures[0], pictures[1..];
    assert Writable(p) && p.frameType < 16 && p.nals != [];
    hide DemuxPayload, Body, StartsLikeAnnexB, Writable, Prefixed;
    GuessIsRightExactly(Guess, p);
    IbmfRunRoundTrips(rest);
    var r, w := DemuxPayload(Guess, Body(p), 5, 3), Demux(IbmfFormat, p.nals, Done);
    assert DemuxRun(Guess, pictures) == [r] + DemuxRun(r.format, rest);
    assert Wanted(pictures) == [w] + Wanted(rest);
    if r != w {
      assert DemuxRun(Guess, pictures)[0] != Wanted(pictures)[0];
    }
  }

  // ---------- only written frames are accepted ----------

  /** Units behind their lengths of `size` + 1 bytes. */
  function PrefixedBy(size: LengthSize, units: seq<seq<byte>>): seq<byte> {
    if units == [] then [] else BigEndian(size + 1, |units[0]|) + units[0] + PrefixedBy(size, units[1..])
  }

  lemma LengthBytes(d: seq<byte>, pos: nat, size: LengthSize)
    requires pos + size + 1 <= |d| && LengthAt(d, pos, size) > 0
    ensures d[pos..pos + size + 1] == BigEndian(size + 1, LengthAt(d, pos, size))
  {
    var b := d[pos..pos + size + 1];
    UnsignedRoundTrip(b);
    if size == 3 {
      Unsigned4(b);
      SignedPositive32(Be32(b[0], b[1], b[2], b[3]));
    } else if size == 1 {
      Unsigned2(b);
      SignedPositive16(Be16(b[0], b[1]));
    } else {
      assert Unsigned(b) == b[0] as int;
    }
    hide BigEndian, Unsigned, Be32, Be16, Signed32, Signed16;
  }

  lemma SignedPositive32(v: int)
    ensures Signed32(v) > 0 && 0 <= v < 0x1_0000_0000 ==> Signed32(v) == v
  {
  }

  lemma SignedPositive16(v: int)
    ensures Signed16(v) > 0 && 0 <= v < 0x1_0000 ==> Signed16(v) == v
  {
  }

  /** Whatever bytes are read to their end are exactly the units found, none empty, each behind its length. */
  lemma {:induction false} AcceptsOnlyPrefixed(d: seq<byte>, pos: nat, size: LengthSize, room: nat)
    requires pos <= |d|
    ensures var r := ReadUnits(d, pos, size, room);
            r.1 == Done ==> d[pos..] == PrefixedBy(size, r.0) && forall i :: 0 <= i < |r.0| ==> r.0[i] != []
    decreases |d| - pos
  {
    hide BigEndian, LengthAt, PrefixedBy;
    var r := ReadUnits(d, pos, size, room);
    if pos == |d| {
      PrefixedByNothing(size);
    } else if r.1 == Done {
      var n, start := LengthAt(d, pos, size), pos + size + 1;
      LengthBytes(d, pos, size);
      AcceptsOnlyPrefixed(d, start + n, size, room - 1);
      PrefixedByCons(size, d[start..start + n], ReadUnits(d, start + n, size, room - 1).0);
      InThree(d, pos, start, start + n);
    }
  }

  lemma PrefixedByNothing(size: LengthSize)
    ensures PrefixedBy(size, []) == []
  {
  }

  lemma PrefixedByCons(size: LengthSize, unit: seq<byte>, units: seq<seq<byte>>)
    ensures PrefixedBy(size, [unit] + units) == BigEndian(size + 1, |unit|) + unit + PrefixedBy(size, units)
  {
    hide BigEndian;
    assert ([unit] + units)[1..] == units;
  }

  lemma InThree(d: seq<byte>, a: nat, b: nat, c: nat)
    requires a <= b <= c <= |d|
    ensures d[a..] == d[a..b] + d[b..c] + d[c..]
  {
  }
}
