/** The class RTPDump, with its fixed buffers, against the functions of RtpDump. */
module RtpDumpFile {
  import opened Bytes
  import opened KernelStream
  import opened Flv
  import opened RawAvc
  import opened RtpClock
  import Model = RtpDump
  import FlvFile

  /** Signature, version 1, audio and video, header size 9, and the first previous-tag-size. */
  const FLV_HEADER: seq<byte> := [0x46, 0x4c, 0x56, 1, 5, 0, 0, 0, 9, 0, 0, 0, 0]

  /** A whole file as a reader sees it: whether audio and video are announced, and the tags behind the header's length and
      the first previous tag size; None when it is no FLV file of version 1. */
  datatype FileRead = FileRead(audio: bool, video: bool, tags: seq<Tag>)

  function ReadFile(d: seq<byte>): Option<FileRead> {
    if |d| < 9 || d[0] as char != 'F' || d[1] as char != 'L' || d[2] as char != 'V' || d[3] != 1 then None
    else
      var offset := Be32(d[5], d[6], d[7], d[8]);
      if offset < 9 || |d| < offset + 4 || d[offset..offset + 4] != [0, 0, 0, 0] then None
      else
        var tags := FlvFile.ReadTags(d[offset + 4..]);
        if tags == None then None else Some(FileRead(d[4] / 4 % 2 == 1, d[4] % 2 == 1, tags.value))
  }

  /** The dump's file is an FLV file with audio and video, and reads as its tags. */
  lemma WholeFileReads(tags: seq<Tag>)
    requires FlvFile.SizesFit(tags)
    ensures ReadFile(FLV_HEADER + StreamBytes(tags)) == Some(FileRead(true, true, FlvFile.Stored(tags)))
  {
    hide StreamBytes, FlvFile.ReadTags, FlvFile.Stored, FlvFile.SizesFit;
    FlvFile.ReadsWrittenTags(tags);
    var d := FLV_HEADER + StreamBytes(tags);
    assert forall i :: 0 <= i < 13 ==> d[i] == FLV_HEADER[i];
    assert d[9..13] == [0, 0, 0, 0] && d[13..] == StreamBytes(tags);
  }

  method Copy(dst: array<byte>, at: nat, src: array<byte>, from: nat, n: nat)
    requires dst != src && at + n <= dst.Length && from + n <= src.Length
    modifies dst
    ensures dst[..] == Overwrite(old(dst[..]), at, src[from..from + n])
  {
    hide Overwrite;
    ghost var was, s := dst[..], src[from..from + n];
    OverwriteNothing(was, at);
    for i := 0 to n
      invariant dst[..] == Overwrite(was, at, s[..i])
    {
      ghost var before := dst[..];
      dst[at + i] := src[from + i];
      assert dst[..] == before[at + i := s[i]];
      OverwriteNext(was, at, s, i);
    }
    assert s[..n] == s;
  }

  method Put(dst: array<byte>, at: nat, s: seq<byte>)
    requires at + |s| <= dst.Length
    modifies dst
    ensures dst[..] == Overwrite(old(dst[..]), at, s)
  {
    hide Overwrite;
    ghost var was := dst[..];
    OverwriteNothing(was, at);
    for i := 0 to |s|
      invariant dst[..] == Overwrite(was, at, s[..i])
    {
      ghost var before := dst[..];
      dst[at + i] := s[i];
      assert dst[..] == before[at + i := s[i]];
      OverwriteNext(was, at, s, i);
    }
    assert s[..|s|] == s;
  }

  class RTPDump {
    const freq: int
    const writer: ByteWriter
    var isVideoBegin: bool
    var flv: SrsFlvEncoder?
    var isSpsPpsOk: int
    var audioLastTime: int
    var baseAudioTime: int
    var videoLastTime: int
    var baseVideoTime: int
    const sps: array<byte>
    var spsSize: int
    const pps: array<byte>
    var ppsSize: int
    const videoData: array<byte>
    var length: nat
    const nalData: array<byte>
    var nalLength: nat
    var cameraType: Model.Camera
    var psOutfile: seq<byte>
    /** The tags in the file. */
    ghost var tags: seq<Tag>

    ghost predicate Valid()
      reads this, writer, flv
    {
      && freq > 0
      && sps.Length == Model.SPS_SIZE && pps.Length == Model.SPS_SIZE
      && videoData.Length == Model.VIDEO_SIZE && nalData.Length == Model.NAL_SIZE
      && sps != pps && sps != videoData && sps != nalData && pps != videoData && pps != nalData && videoData != nalData
      && -1 <= spsSize <= Model.SPS_SIZE && -1 <= ppsSize <= 50
      && length + 5 <= Model.VIDEO_SIZE && nalLength <= Model.NAL_SIZE
      && (isVideoBegin ==> flv != null)
      && (flv == null ==> writer.written == [] && tags == [])
      && (flv != null ==>
            && flv.Valid() && flv.writer == writer && writer.written == FLV_HEADER + StreamBytes(tags)
            && flv.Outside(sps) && flv.Outside(pps) && flv.Outside(videoData) && flv.Outside(nalData))
    }

    ghost function VideoView(): Model.Video
      requires Valid()
      reads this, writer, flv, sps, pps, videoData
    {
      Model.Video(isSpsPpsOk, if spsSize < 0 then None else Some(sps[..spsSize]),
                  if ppsSize < 0 then None else Some(pps[..ppsSize]), Clock(baseVideoTime, videoLastTime),
                  videoData[5..5 + length])
    }

    ghost function View(): Model.Dump
      requires Valid()
      reads this, writer, flv, sps, pps, videoData, nalData
    {
      Model.Dump(cameraType, flv != null, isVideoBegin, VideoView(), Clock(baseAudioTime, audioLastTime),
                 nalData[..nalLength], psOutfile, tags)
    }

    /** Everything that a packet may change. */
    ghost function Footprint(): set<object>
      reads this, flv
    {
      {this, writer, sps, pps, videoData, nalData} + if flv == null then {} else {flv.tagStream, flv.tagHeader}
    }

    /** The sizes of the parameter sets are not initialised by the source; -1 stands for that. */
    constructor (videoFrequency: int)
      requires videoFrequency >= 1000
      ensures Valid() && View() == Model.NEW_DUMP && freq == videoFrequency / 1000
      ensures fresh(Footprint())
    {
      freq := videoFrequency / 1000;
      writer := new ByteWriter();
      isVideoBegin := false;
      flv := null;
      isSpsPpsOk := 0;
      audioLastTime, baseAudioTime, videoLastTime, baseVideoTime := 0, 0, 0, 0;
      sps := new byte[Model.SPS_SIZE];
      pps := new byte[Model.SPS_SIZE];
      spsSize, ppsSize := -1, -1;
      videoData := new byte[Model.VIDEO_SIZE];
      length := 0;
      nalData := new byte[Model.NAL_SIZE];
      nalLength := 0;
      cameraType := Model.Default;
      psOutfile := [];
      tags := [];
    }

    /** srs_flv_open_write and srs_flv_write_header. */
    method OpenWrite() returns (encoder: SrsFlvEncoder)
      requires writer.written == []
      modifies writer
      ensures encoder.Valid() && encoder.writer == writer && writer.written == FLV_HEADER
      ensures fresh(encoder) && fresh(encoder.tagStream) && fresh(encoder.tagHeader) && fresh(encoder.tagHeaders)
              && fresh(encoder.ppts)
    {
      var header := new byte[] [0x46, 0x4c, 0x56, 1, 5, 0, 0, 0, 9];
      assert header[..] == FLV_HEADER[..9];
      encoder := new SrsFlvEncoder(writer);
      encoder.WriteHeader(header);
    }

    method InitFlvHeader()
      requires Valid() && flv == null
      modifies this`flv, writer
      ensures Valid() && flv != null && fresh(flv) && fresh(flv.tagStream) && fresh(flv.tagHeader)
      ensures fresh(flv.tagHeaders) && fresh(flv.ppts)
      ensures View() == old(View()).(isOpen := true)
    {
      NoTags();
      hide StreamBytes, FLV_HEADER;
      assert FLV_HEADER + [] == FLV_HEADER;
      flv := OpenWrite();
    }

    /** The rebasing at the head of videoHandler. */
    method VideoTime(time: int) returns (timestamp: int)
      requires freq > 0
      modifies this`baseVideoTime, this`videoLastTime
      ensures var c := old(Clock(baseVideoTime, videoLastTime));
              Clock(baseVideoTime, videoLastTime) == Advance(c, time, freq) && timestamp == StampOf(c, time, freq)
    {
      if baseVideoTime == 0 {
        baseVideoTime := time;
        videoLastTime := time;
      }
      var diff := Signed32(time - videoLastTime);
      if diff > 1000 * freq {
        baseVideoTime := Signed32(baseVideoTime + diff);
      }
      timestamp := Timestamp(baseVideoTime, time, freq);
      videoLastTime := time;
    }

    /** The rebasing at the head of audioHandler. */
    method AudioTime(time: int) returns (timestamp: int)
      modifies this`baseAudioTime, this`audioLastTime
      ensures var c := old(Clock(baseAudioTime, audioLastTime));
              Clock(baseAudioTime, audioLastTime) == Advance(c, time, 8) && timestamp == StampOf(c, time, 8)
    {
      if baseAudioTime == 0 {
        baseAudioTime := time;
        audioLastTime := time;
      }
      var diff := Signed32(time - audioLastTime);
      if diff > 1000 * 8 {
        baseAudioTime := Signed32(baseAudioTime + diff);
      }
      timestamp := Timestamp(baseAudioTime, time, 8);
      audioLastTime := time;
    }

    /** srs_flv_write_tag for a body that lies in `data`. */
    method WriteTag(kind: byte, timestamp: int, data: array<byte>, at: nat, size: nat)
      requires Valid() && flv != null && flv.Outside(data) && at + size <= data.Length
      requires kind == TAG_AUDIO || kind == TAG_VIDEO
      modifies this`tags, writer, flv.tagStream, flv.tagHeader
      ensures Valid() && tags == old(tags) + [Tag(kind, Signed32(timestamp), data[at..at + size])]
    {
      hide TagBytes, StreamBytes, Signed32;
      ghost var tag := Tag(kind, Signed32(timestamp), data[at..at + size]);
      StreamBytesSnoc(tags, tag);
      if kind == TAG_AUDIO {
        flv.WriteAudio(Signed32(timestamp), data, at, size);
      } else {
        flv.WriteVideo(Signed32(timestamp), data, at, size);
      }
      assert FLV_HEADER + StreamBytes(tags) + TagBytes(tag) == FLV_HEADER + (StreamBytes(tags) + TagBytes(tag));
      tags := tags + [tag];
    }

    /** srs_flv_write_sps_pps_tag. */
    method WriteSpsPpsTag(timestamp: int)
      requires Valid() && flv != null && 4 <= spsSize && 0 <= ppsSize
      modifies this`tags, writer, flv.tagStream, flv.tagHeader
      ensures Valid()
      ensures tags == old(tags) + [Tag(TAG_VIDEO, Signed32(timestamp),
                                       Model.HEADER_TAG + SequenceHeader(sps[..spsSize], pps[..ppsSize]))]
    {
      hide SequenceHeader, Overwrite, Signed32;
      var sh := MuxSequenceHeader(sps[..spsSize], pps[..ppsSize]);
      HeaderLength(sps[..spsSize], pps[..ppsSize]);
      var tagData := new byte[256];
      ghost var was := tagData[..];
      Put(tagData, 0, Model.HEADER_TAG);
      Put(tagData, 5, sh);
      OverwriteTwice(was, 0, Model.HEADER_TAG, sh);
      Overwritten(was, 0, Model.HEADER_TAG + sh);
      assert tagData[0..5 + |sh|] == Model.HEADER_TAG + sh;
      WriteTag(TAG_VIDEO, timestamp, tagData, 0, 5 + |sh|);
    }

    /** The buffers hold what the unit adds. */
    ghost predicate Fits(nal: seq<byte>)
      reads this
    {
      if isSpsPpsOk != 2 then nal != [] && NalType(nal) == NAL_SPS ==> |nal| <= Model.SPS_SIZE
      else Model.IsSlice(nal) ==> 5 + length + 4 + |nal| <= Model.VIDEO_SIZE
    }

    /** Put the unit behind its length into the frame buffer. */
    method AppendUnit(buf: array<byte>, at: nat, n: nat)
      requires Valid() && buf != videoData && 0 < n && at + n <= buf.Length && 5 + length + 4 + n <= Model.VIDEO_SIZE
      modifies this`length, videoData
      ensures Valid()
      ensures VideoView() == old(VideoView()).(pending := old(VideoView().pending) + LengthPrefixed(buf[at..at + n]))
    {
      hide Overwrite, BigEndian, StreamBytes;
      ghost var nal, was := buf[at..at + n], videoData[..];
      Put(videoData, 5 + length, BigEndian(4, n));
      Copy(videoData, 5 + length + 4, buf, at, n);
      OverwriteTwice(was, 5 + length, BigEndian(4, n), nal);
      Appended(was, length, LengthPrefixed(nal));
      length := length + n + 4;
    }

    /** Write the waiting units as one frame. */
    method WriteFrame(timestamp: int, first: byte)
      requires Valid() && flv != null
      modifies this`tags, this`length, videoData, writer, flv.tagStream, flv.tagHeader
      ensures Valid() && VideoView() == old(VideoView()).(pending := [])
      ensures tags == old(tags) + [Tag(TAG_VIDEO, Signed32(timestamp), [first, 1, 0, 0, 0] + old(VideoView().pending))]
    {
      hide Overwrite, Signed32, StreamBytes;
      ghost var was := videoData[..];
      Put(videoData, 0, [first, 1, 0, 0, 0]);
      Headed(was, [first, 1, 0, 0, 0], length);
      WriteTag(TAG_VIDEO, timestamp, videoData, 0, length + 5);
      length := 0;
    }

    /** The second branch of videoHandler: a slice joins the frame, and a marker writes it. */
    method AppendSlice(buf: array<byte>, at: nat, n: nat, timestamp: int, marker: bool)
      requires Valid() && flv != null && buf != videoData && flv.Outside(buf) && 0 < n && at + n <= buf.Length
      requires isSpsPpsOk == 2 && Fits(buf[at..at + n])
      modifies this`tags, this`length, videoData, writer, flv.tagStream, flv.tagHeader
      ensures Valid()
      ensures var step := Model.AddSlice(old(VideoView()), buf[at..at + n], marker, Signed32(timestamp));
              VideoView() == step.video && tags == old(tags) + Model.Listed(step.tag)
    {
      hide Overwrite, Signed32, StreamBytes, LengthPrefixed;
      var kind := buf[at] % 32;
      if kind == NAL_IDR || kind == 1 {
        AppendUnit(buf, at, n);
        if marker {
          WriteFrame(timestamp, if kind == NAL_IDR then 0x17 else 0x27);
        }
      }
    }

    method KeepSps(buf: array<byte>, at: nat, n: nat)
      requires Valid() && buf != sps && n <= Model.SPS_SIZE && at + n <= buf.Length
      modifies this`isSpsPpsOk, this`spsSize, sps
      ensures Valid() && VideoView() == old(VideoView()).(sps := Some(buf[at..at + n]), count := old(isSpsPpsOk) + 1)
    {
      hide Overwrite, StreamBytes;
      ghost var was := sps[..];
      Copy(sps, 0, buf, at, n);
      Overwritten(was, 0, buf[at..at + n]);
      assert sps[..n] == buf[at..at + n];
      spsSize := n;
      isSpsPpsOk := isSpsPpsOk + 1;
    }

    method KeepPps(buf: array<byte>, at: nat, n: nat)
      requires Valid() && buf != pps && at + n <= buf.Length
      modifies this`isSpsPpsOk, this`ppsSize, pps
      ensures Valid()
      ensures VideoView()
              == old(VideoView()).(pps := Some(Model.KeptPps(buf[at..at + n])), count := old(isSpsPpsOk) + 1)
    {
      hide Overwrite, StreamBytes;
      isSpsPpsOk := isSpsPpsOk + 1;
      ppsSize := n;
      if n > 50 {
        ppsSize := 4;
      }
      ghost var was := pps[..];
      Copy(pps, 0, buf, at, ppsSize);
      Overwritten(was, 0, buf[at..at + ppsSize]);
      assert pps[..ppsSize] == buf[at..at + ppsSize];
      assert Model.KeptPps(buf[at..at + n]) == buf[at..at + ppsSize];
    }

    /** The first branch of videoHandler. */
    method KeepSet(buf: array<byte>, at: nat, n: nat, timestamp: int)
      requires Valid() && flv != null && 0 < n && at + n <= buf.Length && flv.Outside(buf) && buf != sps && buf != pps
      requires isSpsPpsOk != 2 && Fits(buf[at..at + n])
      requires Model.KeepSet(VideoView(), buf[at..at + n], Signed32(timestamp)).Some?
      modifies this`isSpsPpsOk, this`spsSize, this`ppsSize, this`tags, sps, pps, writer, flv.tagStream, flv.tagHeader
      ensures Valid()
      ensures var step := Model.KeepSet(old(VideoView()), buf[at..at + n], Signed32(timestamp)).value;
              VideoView() == step.video && tags == old(tags) + Model.Listed(step.tag)
    {
      hide Overwrite, SequenceHeader, StreamBytes, Signed32;
      ghost var nal, before := buf[at..at + n], VideoView();
      var kind := buf[at] % 32;
      if kind == NAL_SPS {
        KeepSps(buf, at, n);
      }
      if kind == NAL_PPS {
        KeepPps(buf, at, n);
      }
      if isSpsPpsOk == 2 {
        WriteSpsPpsTag(timestamp);
      }
    }

    method VideoHandler(buf: array<byte>, at: nat, n: nat, time: int, marker: bool)
      requires Valid() && flv != null && 0 < n && at + n <= buf.Length && flv.Outside(buf)
      requires buf != sps && buf != pps && buf != videoData
      requires Fits(buf[at..at + n])
      requires Model.VideoHandler(VideoView(), Model.Unit(buf[at..at + n], time, marker), freq).Some?
      modifies this`isSpsPpsOk, this`spsSize, this`ppsSize, this`baseVideoTime, this`videoLastTime, this`length,
               this`isVideoBegin, this`tags, sps, pps, videoData, writer, flv.tagStream, flv.tagHeader
      ensures Valid() && isVideoBegin
      ensures var step := Model.VideoHandler(old(VideoView()), Model.Unit(buf[at..at + n], time, marker), freq).value;
              VideoView() == step.video && tags == old(tags) + Model.Listed(step.tag)
    {
      hide Model.KeepSet, Model.AddSlice, StreamBytes, Signed32, StampOf, Advance, Model.IsSlice, NalType;
      ghost var nal, before := buf[at..at + n], VideoView();
      var timestamp := VideoTime(time);
      ghost var timed := VideoView();
      assert buf[at..at + n] == nal && Fits(nal) && timed.count == before.count;
      if isSpsPpsOk != 2 {
        KeepSet(buf, at, n, timestamp);
      } else {
        AppendSlice(buf, at, n, timestamp, marker);
      }
      isVideoBegin := true;
    }

    /** The audio body is the payload behind one byte, for which the last header byte of the packet is overwritten. */
    method AudioHandler(buf: array<byte>, at: nat, n: nat, time: int, aLaw: bool)
      requires Valid() && flv != null && 0 < at && at + n <= buf.Length && flv.Outside(buf)
      requires buf != sps && buf != pps && buf != videoData && buf != nalData
      modifies this`baseAudioTime, this`audioLastTime, this`tags, buf, writer, flv.tagStream, flv.tagHeader
      ensures Valid() && VideoView() == old(VideoView())
      ensures var a := Model.AudioHandler(old(Clock(baseAudioTime, audioLastTime)), old(buf[at..at + n]), time, aLaw);
              Clock(baseAudioTime, audioLastTime) == a.0 && tags == old(tags) + Model.Listed(a.1)
    {
      hide StreamBytes, Signed32, StampOf, Advance;
      var timestamp := AudioTime(time);
      if timestamp > 1 {
        var first: byte := if aLaw then 0x72 else 0x82;
        ghost var audio := buf[at..at + n];
        buf[at - 1] := first;
        assert buf[at - 1..at - 1 + (n + 1)] == [first] + audio;
        WriteTag(TAG_AUDIO, timestamp, buf, at - 1, n + 1);
      }
    }

    /** A fragment joins the NAL unit; a start bit begins a new one. */
    method AppendFragment(buf: array<byte>, n: nat)
      requires Valid() && buf != nalData && 14 <= n <= buf.Length
      requires |Model.Appended(nalData[..nalLength], buf[12..n])| <= Model.NAL_SIZE
      modifies this`nalLength, nalData
      ensures Valid() && nalData[..nalLength] == Model.Appended(old(nalData[..nalLength]), buf[12..n])
    {
      hide StreamBytes, Overwrite;
      ghost var fu := buf[12..n];
      assert fu[0] == buf[12] && fu[1] == buf[13] && fu[2..] == buf[14..n];
      if buf[13] >= 128 {
        nalData[0] := buf[12] / 32 * 32 + buf[13] % 32;
        nalLength := 1;
      }
      ghost var was := nalData[..];
      Copy(nalData, nalLength, buf, 14, n - 14);
      Overwritten(was, nalLength, buf[14..n]);
      assert nalData[..nalLength + (n - 14)] == was[..nalLength] + buf[14..n];
      nalLength := nalLength + (n - 14);
    }

    method AddFragment(buf: array<byte>, n: nat)
      requires Valid() && buf != nalData && 14 <= n <= buf.Length
      requires |Model.Appended(nalData[..nalLength], buf[12..n])| <= Model.NAL_SIZE
      modifies this`nalLength, nalData
      ensures Valid() && View() == old(View()).(nal := Model.Appended(old(nalData[..nalLength]), buf[12..n]))
    {
      hide StreamBytes, Model.Appended;
      AppendFragment(buf, n);
    }

    /** The fragment buffer is a buffer of its own. */
    lemma FragmentBuffer()
      requires Valid()
      ensures nalLength <= nalData.Length && nalData != sps && nalData != pps && nalData != videoData
      ensures flv != null ==> flv.Outside(nalData)
    {
    }

    lemma FileIsOpen()
      requires Valid()
      ensures (isVideoBegin ==> flv != null) && freq > 0
    {
    }

    /** A unit in a buffer, handed to videoHandler. */
    method HandUnit(buf: array<byte>, at: nat, n: nat, time: int, marker: bool)
      requires Valid() && flv != null && 0 < n && at + n <= buf.Length && flv.Outside(buf)
      requires buf != sps && buf != pps && buf != videoData
      requires Fits(buf[at..at + n])
      requires Model.VideoHandler(VideoView(), Model.Unit(buf[at..at + n], time, marker), freq).Some?
      modifies Footprint() - {nalData}
      ensures Valid() && Footprint() == old(Footprint())
      ensures var d, unit := old(View()), Model.Unit(old(buf[at..at + n]), time, marker);
              Some(View()) == Model.Deliver(d, Model.Reception(d.camera, d.nal, Some(unit)), freq)
    {
      hide StreamBytes, Model.VideoHandler;
      VideoHandler(buf, at, n, time, marker);
    }

    /** The unit goes to videoHandler, at once or when its last fragment has come. */
    method UnpackOpen(buf: array<byte>, n: nat)
      requires Valid() && flv != null && 13 <= n <= buf.Length && buf !in Footprint() && flv.Outside(buf)
      requires var p, nal := buf[..n], nalData[..nalLength];
               && (Model.IsFuA(p[12..]) ==> n >= 14 && Model.Appended(nal, p[12..]) != [])
               && var r := Model.Unpack(cameraType, nal, p);
                  && |r.nal| <= Model.NAL_SIZE && (r.unit.Some? ==> Fits(r.unit.value.nal))
                  && Model.Deliver(View(), r, freq).Some?
      modifies Footprint()
      ensures Valid() && Footprint() == old(Footprint())
      ensures Some(View())
              == Model.Deliver(old(View()), Model.Unpack(old(cameraType), old(nalData[..nalLength]), buf[..n]), freq)
    {
      hide StreamBytes, Signed32, Model.VideoHandler, Model.Appended, Be32, Model.Listed, Valid;
      ghost var p, payload, before := buf[..n], buf[..n][12..], View();
      assert payload == buf[12..n] && payload[0] == buf[12];
      var time := Signed32(Be32(buf[4], buf[5], buf[6], buf[7]));
      if buf[12] % 32 == 28 {
        assert payload[1] == buf[13];
        AddFragment(buf, n);
        if buf[13] / 64 % 2 == 1 {
          FragmentBuffer();
          assert nalData[0..0 + nalLength] == nalData[..nalLength];
          HandUnit(nalData, 0, nalLength, time, buf[1] >= 128);
        }
      } else {
        assert buf[12..12 + (n - 12)] == payload;
        HandUnit(buf, 12, n - 12, time, buf[1] >= 128);
      }
    }

    /** The part of rtpHandler behind the camera test. */
    method Unpack(buf: array<byte>, n: nat)
      requires Valid() && 13 <= n <= buf.Length && buf !in Footprint() && (flv != null ==> flv.Outside(buf))
      requires var p, nal := buf[..n], nalData[..nalLength];
               && (Model.IsFuA(p[12..]) ==> n >= 14 && Model.Appended(nal, p[12..]) != [])
               && var r := Model.Unpack(cameraType, nal, p);
                  && |r.nal| <= Model.NAL_SIZE && (r.unit.Some? ==> Fits(r.unit.value.nal))
                  && Model.Deliver(View(), r, freq).Some?
      modifies Footprint()
      ensures Valid() && fresh(Footprint() - old(Footprint()))
      ensures Some(View())
              == Model.Deliver(old(View()), Model.Unpack(old(cameraType), old(nalData[..nalLength]), buf[..n]), freq)
    {
      hide StreamBytes, Model.VideoHandler, Model.Unpack;
      if flv == null {
        InitFlvHeader();
      }
      UnpackOpen(buf, n);
    }

    /** The first packet of payload type 96 says what camera sends. */
    method DetectCamera(buf: array<byte>, n: nat)
      requires Valid() && 15 <= n <= buf.Length
      modifies this`cameraType
      ensures Valid() && View() == old(View()).(camera := if old(cameraType) == Model.Default
                                                          then Model.Detected(buf[..n][12..]) else old(cameraType))
    {
      hide StreamBytes;
      if cameraType == Model.Default {
        if buf[12] == 0 || buf[13] == 0 || buf[14] == 1 {
          cameraType := Model.PsCamera;
        } else if buf[12] == 0x67 || buf[12] == 0x68 || buf[12] % 32 == 28 {
          cameraType := Model.RtspCamera;
        } else {
          cameraType := Model.PsCamera;
        }
      }
    }

    /** The buffers hold what the model says they must. */
    lemma FitsAsModelled(nal: seq<byte>)
      requires Valid() && nal != [] && Model.FitsUnit(VideoView(), nal)
      ensures Fits(nal)
    {
    }

    /** rtpHandler: one packet is one step of the model. */
    method RtpHandler(buf: array<byte>, n: nat)
      requires Valid() && n <= buf.Length && buf !in Footprint() && (flv != null ==> flv.Outside(buf))
      requires Model.Readable(cameraType, nalData[..nalLength], buf[..n]) && Model.FitsPacket(View(), buf[..n])
      requires Model.Handle(View(), buf[..n], freq).Some?
      modifies Footprint(), buf
      ensures Valid() && fresh(Footprint() - old(Footprint()))
      ensures Some(View()) == Model.Handle(old(View()), old(buf[..n]), freq)
    {
      hide StreamBytes, Signed32, Be32, Model.Deliver, Model.Unpack, Model.AudioHandler, Model.Detected, Valid;
      if n < 12 {
        return;
      }
      FileIsOpen();
      ghost var p, before := buf[..n], View();
      if buf[0] / 64 != 2 {
        return;
      }
      var pt := buf[1] % 128;
      if pt == 0 || pt == 8 {
        if isVideoBegin {
          HandAudio(buf, n, pt == 8);
        }
        return;
      } else if pt == 96 {
        var detect := cameraType == Model.Default;
        if detect {
          DetectCamera(buf, n);
        }
        if cameraType == Model.PsCamera {
          SavePs(buf, n);
          return;
        }
      } else if pt != 98 {
        return;
      }
      assert View() == before.(camera := cameraType);
      HandleIsDeliver(before, p, freq);
      if Model.Receive(before.camera, before.nal, p).unit.Some? {
        FitsAsModelled(Model.Receive(before.camera, before.nal, p).unit.value.nal);
      }
      DeliverIgnoresCamera(before, Model.Receive(before.camera, before.nal, p), cameraType, freq);
      Unpack(buf, n);
    }

    method HandAudio(buf: array<byte>, n: nat, aLaw: bool)
      requires Valid() && isVideoBegin && 12 <= n <= buf.Length && buf !in Footprint() && flv.Outside(buf)
      modifies Footprint(), buf
      ensures Valid() && Footprint() == old(Footprint())
      ensures var d := old(View());
              var a := Model.AudioHandler(d.audio, old(buf[..n][12..]), Model.TimeOf(old(buf[..n])), aLaw);
              View() == d.(audio := a.0, tags := d.tags + Model.Listed(a.1))
    {
      hide StreamBytes, Signed32, Be32, Model.AudioHandler, Model.Listed;
      assert buf[12..12 + (n - 12)] == buf[..n][12..];
      AudioHandler(buf, 12, n - 12, Signed32(Be32(buf[4], buf[5], buf[6], buf[7])), aLaw);
    }

    method SavePs(buf: array<byte>, n: nat)
      requires Valid() && 12 <= n <= buf.Length
      modifies this`psOutfile
      ensures Valid() && View() == old(View()).(ps := old(psOutfile) + buf[..n][12..])
    {
      hide StreamBytes;
      psOutfile := psOutfile + buf[..n][12..];
    }
  }

  lemma HandleIsDeliver(d: Model.Dump, p: seq<byte>, freq: int)
    requires Model.IsVideo(p) && Model.Readable(d.camera, d.nal, p) && freq > 0
    requires !(Model.PayloadType(p) == 96 && Model.CameraFor(d.camera, p) == Model.PsCamera)
    ensures Model.Receive(d.camera, d.nal, p) == Model.Unpack(Model.CameraFor(d.camera, p), d.nal, p)
    ensures Model.Handle(d, p, freq) == Model.Deliver(d, Model.Receive(d.camera, d.nal, p), freq)
  {
    hide Model.Deliver, Model.Detected;
  }

  lemma DeliverIgnoresCamera(d: Model.Dump, r: Model.Reception, camera: Model.Camera, freq: int)
    requires (r.unit.Some? ==> r.unit.value.nal != []) && freq > 0
    ensures Model.Deliver(d.(camera := camera), r, freq) == Model.Deliver(d, r, freq)
  {
    hide Model.VideoHandler;
  }

  lemma NoTags()
    ensures StreamBytes([]) == []
  {
  }

  lemma HeaderLength(sps: seq<byte>, pps: seq<byte>)
    requires |sps| >= 4
    ensures |SequenceHeader(sps, pps)| == 5 + 3 + |sps| + 3 + |pps|
  {
  }

  /** Bytes written behind the waiting ones extend them. */
  lemma Appended(was: seq<byte>, length: nat, s: seq<byte>)
    requires 5 + length + |s| <= |was|
    ensures Overwrite(was, 5 + length, s)[5..5 + length + |s|] == was[5..5 + length] + s
  {
  }

  lemma Headed(was: seq<byte>, head: seq<byte>, length: nat)
    requires |head| == 5 && 5 + length <= |was|
    ensures Overwrite(was, 0, head)[0..length + 5] == head + was[5..5 + length]
  {
  }
}
