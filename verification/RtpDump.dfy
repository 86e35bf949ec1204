/**
 RTPDump as functions on its fields: RTP packets in, FLV tags out. The class of RtpDumpFile is proved equal to Handle.

 A run stops (None) where the program has no defined next state: the second parameter set has come, but not one SPS
 and one PPS, or the SPS has fewer than four bytes, which mux_sequence_header asserts.
 */
module RtpDump {
  import opened Bytes
  import opened Flv
  import opened RawAvc
  import opened RtpClock

  /** The fixed buffers sps, video_data and m_nal_data. */
  const SPS_SIZE := 128
  const VIDEO_SIZE := 512 * 1024
  const NAL_SIZE := 256 * 1024

  datatype Camera = Default | RtspCamera | PsCamera

  /** The fields of videoHandler: parameter sets so far, the clock, and `pending`, the units waiting for a marker. */
  datatype Video = Video(count: int, sps: Option<seq<byte>>, pps: Option<seq<byte>>, clock: Clock, pending: seq<byte>)

  /** All fields; `nal` is the fragment buffer, `ps` what went to the camera's raw file. */
  datatype Dump = Dump(camera: Camera, isOpen: bool, videoBegin: bool, video: Video, audio: Clock, nal: seq<byte>,
                       ps: seq<byte>, tags: seq<Tag>)

  const NEW_VIDEO := Video(0, None, None, NEW_CLOCK, [])
  const NEW_DUMP := Dump(Default, false, false, NEW_VIDEO, NEW_CLOCK, [], [], [])

  /** A call of videoHandler: a whole NAL unit, its RTP time and the marker bit. */
  datatype Unit = Unit(nal: seq<byte>, time: int, marker: bool)

  datatype VideoStep = VideoStep(video: Video, tag: Option<Tag>)

  function IsParameterSet(nal: seq<byte>): bool { nal != [] && (NalType(nal) == NAL_SPS || NalType(nal) == NAL_PPS) }

  function IsSlice(nal: seq<byte>): bool { nal != [] && (NalType(nal) == NAL_IDR || NalType(nal) == 1) }

  /** In the numbers of table 7-1 of ITU-T H.264. */
  lemma NalKinds(nal: seq<byte>)
    ensures IsParameterSet(nal) <==> nal != [] && (nal[0] % 32 == 7 || nal[0] % 32 == 8)
    ensures IsSlice(nal) <==> nal != [] && (nal[0] % 32 == 1 || nal[0] % 32 == 5)
  {
  }

  /** A PPS of more than 50 bytes is cut to 4. */
  function KeptPps(nal: seq<byte>): seq<byte> { if |nal| > 50 then nal[..4] else nal }

  const HEADER_TAG: seq<byte> := [0x17, 0, 0, 0, 0]

  function NaluTag(nal: seq<byte>): seq<byte>
    requires nal != []
  {
    [if NalType(nal) == NAL_IDR then 0x17 else 0x27, 1, 0, 0, 0]
  }

  /** A unit before the sequence header: parameter sets are kept, and the second one writes the header. */
  function KeepSet(v: Video, nal: seq<byte>, stamp: int): Option<VideoStep>
    requires nal != []
  {
    var v2 := if NalType(nal) == NAL_SPS then v.(sps := Some(nal), count := v.count + 1)
              else if NalType(nal) == NAL_PPS then v.(pps := Some(KeptPps(nal)), count := v.count + 1)
              else v;
    if v2.count != 2 then Some(VideoStep(v2, None))
    else if v2.sps == None || v2.pps == None || |v2.sps.value| < 4 then None
    else Some(VideoStep(v2, Some(Tag(TAG_VIDEO, stamp, HEADER_TAG + SequenceHeader(v2.sps.value, v2.pps.value)))))
  }

  /** A unit after it: slices wait for a marker, which writes them as one frame. */
  function AddSlice(v: Video, nal: seq<byte>, marker: bool, stamp: int): VideoStep
    requires nal != []
  {
    if !IsSlice(nal) then VideoStep(v, None)
    else
      var pending := v.pending + LengthPrefixed(nal);
      if marker then VideoStep(v.(pending := []), Some(Tag(TAG_VIDEO, stamp, NaluTag(nal) + pending)))
      else VideoStep(v.(pending := pending), None)
  }

  /** videoHandler. */
  function VideoHandler(v: Video, u: Unit, freq: int): Option<VideoStep>
    requires u.nal != [] && freq > 0
  {
    var stamp := Signed32(StampOf(v.clock, u.time, freq));
    var v1 := v.(clock := Advance(v.clock, u.time, freq));
    if v.count != 2 then KeepSet(v1, u.nal, stamp) else Some(AddSlice(v1, u.nal, u.marker, stamp))
  }

  /** audioHandler: eight samples are a millisecond, and the first two milliseconds are not written. */
  function AudioHandler(clock: Clock, audio: seq<byte>, time: int, aLaw: bool): (Clock, Option<Tag>) {
    var stamp := StampOf(clock, time, 8);
    (Advance(clock, time, 8),
     if stamp > 1 then Some(Tag(TAG_AUDIO, Signed32(stamp), [if aLaw then 0x72 else 0x82] + audio)) else None)
  }

  // ---------- RTP packets ----------

  function PayloadType(p: seq<byte>): int
    requires |p| >= 12
  {
    p[1] % 128
  }

  function IsMarked(p: seq<byte>): bool
    requires |p| >= 12
  {
    p[1] >= 128
  }

  function TimeOf(p: seq<byte>): int
    requires |p| >= 12
  {
    Signed32(Be32(p[4], p[5], p[6], p[7]))
  }

  /** Version 2 and long enough. */
  predicate IsRtp(p: seq<byte>) { |p| >= 12 && p[0] / 64 == 2 }

  predicate IsAudio(p: seq<byte>): (r: bool)
    ensures r ==> |p| >= 12
  {
    IsRtp(p) && (PayloadType(p) == 0 || PayloadType(p) == 8)
  }

  predicate IsVideo(p: seq<byte>) { IsRtp(p) && (PayloadType(p) == 96 || PayloadType(p) == 98) }

  /** An RTP packet without contributing sources (section 5.1 of RFC 3550); `flags` are padding, extension and count. */
  function RtpPacket(version: int, flags: int, marker: bool, payloadType: int, number: int, time: int, source: int,
                     payload: seq<byte>): seq<byte>
    requires 0 <= version < 4 && 0 <= flags < 64 && 0 <= payloadType < 128
  {
    [(version * 64 + flags) as byte, ((if marker then 128 else 0) + payloadType) as byte]
    + BigEndian(2, number) + BigEndian(4, time) + BigEndian(4, source) + payload
  }

  /** How such a packet is read: only version 2 is, audio is payload type 0 or 8 and video 96 or 98, and the time is its
      32 bits as a signed number. */
  lemma RtpPacketRead(version: int, flags: int, marker: bool, payloadType: int, number: int, time: int, source: int,
                      payload: seq<byte>)
    requires 0 <= version < 4 && 0 <= flags < 64 && 0 <= payloadType < 128
    ensures var p := RtpPacket(version, flags, marker, payloadType, number, time, source, payload);
            && |p| == 12 + |payload| && p[12..] == payload
            && (IsRtp(p) <==> version == 2)
            && PayloadType(p) == payloadType && (IsMarked(p) <==> marker)
            && TimeOf(p) == Signed32(time % 0x1_0000_0000)
            && (IsAudio(p) <==> version == 2 && (payloadType == 0 || payloadType == 8))
            && (IsVideo(p) <==> version == 2 && (payloadType == 96 || payloadType == 98))
  {
    hide BigEndian, Be32, Signed32;
    var p := RtpPacket(version, flags, marker, payloadType, number, time, source, payload);
    var b := BigEndian(4, time);
    assert p[4] == b[0] && p[5] == b[1] && p[6] == b[2] && p[7] == b[3];
    TimeBytes(time);
    assert (version * 64 + flags) / 64 == version;
  }

  lemma TimeBytes(time: int)
    ensures var b := BigEndian(4, time); Be32(b[0], b[1], b[2], b[3]) == time % 0x1_0000_0000
  {
    hide BigEndian, Unsigned, Be32, Pow256;
    var b := BigEndian(4, time);
    Unsigned4(b);
    BigEndianRoundTrip(4, time);
    Pow256Of4();
  }

  /** The camera type that the first packet of payload type 96 settles. */
  function Detected(payload: seq<byte>): Camera
    requires |payload| >= 3
  {
    if payload[0] == 0 || payload[1] == 0 || payload[2] == 1 then PsCamera
    else if payload[0] == 0x67 || payload[0] == 0x68 || payload[0] % 32 == 28 then RtspCamera
    else PsCamera
  }

  function CameraFor(camera: Camera, p: seq<byte>): Camera
    requires |p| >= 12 && (PayloadType(p) == 96 && camera == Default ==> |p| >= 15)
  {
    if PayloadType(p) == 96 && camera == Default then Detected(p[12..]) else camera
  }

  predicate IsFuA(payload: seq<byte>) { payload != [] && payload[0] % 32 == 28 }

  /** The fragment buffer after a fragment; a start bit empties it first. */
  function Appended(nal: seq<byte>, fu: seq<byte>): seq<byte>
    requires |fu| >= 2
  {
    (if fu[1] >= 128 then [(fu[0] / 32 * 32 + fu[1] % 32) as byte] else nal) + fu[2..]
  }

  /** The bytes that the handler looks at are inside the packet, and a fragment that ends has a NAL unit to give. */
  predicate Readable(camera: Camera, nal: seq<byte>, p: seq<byte>) {
    IsVideo(p) ==>
      && |p| >= 13
      && (PayloadType(p) == 96 && camera == Default ==> |p| >= 15)
      && (IsFuA(p[12..]) ==> |p| >= 14 && Appended(nal, p[12..]) != [])
  }

  /** What a video packet does before videoHandler: the camera, the fragment buffer, and the unit it completes. */
  datatype Reception = Reception(camera: Camera, nal: seq<byte>, unit: Option<Unit>)

  /** A whole unit, or a fragment that may complete one. */
  function Unpack(camera: Camera, nal: seq<byte>, p: seq<byte>): (r: Reception)
    requires |p| >= 13 && (IsFuA(p[12..]) ==> |p| >= 14 && Appended(nal, p[12..]) != [])
    ensures r.unit.Some? ==> r.unit.value.nal != []
  {
    var payload := p[12..];
    if !IsFuA(payload) then Reception(camera, nal, Some(Unit(payload, TimeOf(p), IsMarked(p))))
    else
      var whole := Appended(nal, payload);
      Reception(camera, whole, if payload[1] / 64 % 2 == 1 then Some(Unit(whole, TimeOf(p), IsMarked(p))) else None)
  }

  /** The packets of a PS camera go to a raw file; all others are unpacked. */
  function Receive(camera: Camera, nal: seq<byte>, p: seq<byte>): (r: Reception)
    requires IsVideo(p) && Readable(camera, nal, p)
    ensures r.unit.Some? ==> r.unit.value.nal != []
  {
    var c := CameraFor(camera, p);
    if PayloadType(p) == 96 && c == PsCamera then Reception(c, nal, None) else Unpack(c, nal, p)
  }

  /** The file is opened, and a complete unit goes to videoHandler. */
  function Deliver(d: Dump, r: Reception, freq: int): Option<Dump>
    requires (r.unit.Some? ==> r.unit.value.nal != []) && freq > 0
  {
    var d1 := d.(camera := r.camera, nal := r.nal, isOpen := true);
    if r.unit == None then Some(d1)
    else
      var step := VideoHandler(d.video, r.unit.value, freq);
      if step == None then None
      else Some(d1.(video := step.value.video, videoBegin := true, tags := d.tags + Listed(step.value.tag)))
  }

  /** The fixed buffers hold what a unit adds. */
  predicate FitsUnit(v: Video, nal: seq<byte>)
    requires nal != []
  {
    if v.count != 2 then NalType(nal) == NAL_SPS ==> |nal| <= SPS_SIZE
    else IsSlice(nal) ==> 5 + |v.pending| + 4 + |nal| <= VIDEO_SIZE
  }

  /** The handler stays inside its fixed buffers for this packet. */
  predicate FitsPacket(d: Dump, p: seq<byte>)
    requires Readable(d.camera, d.nal, p)
  {
    IsVideo(p) ==>
      var r := Receive(d.camera, d.nal, p);
      |r.nal| <= NAL_SIZE && (r.unit.Some? ==> FitsUnit(d.video, r.unit.value.nal))
  }

  /** rtpHandler. */
  function Handle(d: Dump, p: seq<byte>, freq: int): Option<Dump>
    requires Readable(d.camera, d.nal, p) && freq > 0
  {
    if IsAudio(p) then
      if !d.videoBegin then Some(d)
      else
        var a := AudioHandler(d.audio, p[12..], TimeOf(p), PayloadType(p) == 8);
        Some(d.(audio := a.0, tags := d.tags + Listed(a.1)))
    else if IsVideo(p) then
      var r := Receive(d.camera, d.nal, p);
      if PayloadType(p) == 96 && r.camera == PsCamera then Some(d.(camera := r.camera, ps := d.ps + p[12..]))
      else Deliver(d, r, freq)
    else Some(d)
  }

  function Listed<T>(x: Option<T>): seq<T> { if x.None? then [] else [x.value] }

  // ---------- runs ----------

  /** Every packet of the run can be read. */
  predicate ReadableRun(camera: Camera, nal: seq<byte>, packets: seq<seq<byte>>)
    decreases |packets|
  {
    packets == [] || (
      && Readable(camera, nal, packets[0])
      && if IsVideo(packets[0]) then
           var r := Receive(camera, nal, packets[0]);
           ReadableRun(r.camera, r.nal, packets[1..])
         else ReadableRun(camera, nal, packets[1..]))
  }

  function Run(d: Dump, packets: seq<seq<byte>>, freq: int): Option<Dump>
    requires ReadableRun(d.camera, d.nal, packets) && freq > 0
    decreases |packets|
  {
    if packets == [] then Some(d)
    else
      var next := Handle(d, packets[0], freq);
      if next == None then None else Run(next.value, packets[1..], freq)
  }

  /** The calls of videoHandler that a run makes, in order. */
  function Units(camera: Camera, nal: seq<byte>, packets: seq<seq<byte>>): (r: seq<Unit>)
    requires ReadableRun(camera, nal, packets)
    ensures forall i :: 0 <= i < |r| ==> r[i].nal != []
    decreases |packets|
  {
    if packets == [] then []
    else if !IsVideo(packets[0]) then Units(camera, nal, packets[1..])
    else
      var r := Receive(camera, nal, packets[0]);
      Listed(r.unit) + Units(r.camera, r.nal, packets[1..])
  }

  predicate NonEmpty(units: seq<Unit>) { forall i :: 0 <= i < |units| ==> units[i].nal != [] }

  /** The same calls on the video fields alone, and the tags they write. */
  function RunUnits(v: Video, units: seq<Unit>, freq: int): Option<(Video, seq<Tag>)>
    requires NonEmpty(units) && freq > 0
    decreases |units|
  {
    if units == [] then Some((v, []))
    else
      var step := VideoHandler(v, units[0], freq);
      if step == None then None
      else
        var rest := RunUnits(step.value.video, units[1..], freq);
        if rest == None then None else Some((rest.value.0, Listed(step.value.tag) + rest.value.1))
  }

  function VideoTags(tags: seq<Tag>): seq<Tag> {
    if tags == [] then []
    else VideoTags(tags[..|tags| - 1]) + (if tags[|tags| - 1].kind == TAG_VIDEO then [tags[|tags| - 1]] else [])
  }

  lemma VideoTagsListed(tags: seq<Tag>, tag: Option<Tag>)
    ensures VideoTags(tags + Listed(tag))
            == VideoTags(tags) + (if tag.Some? && tag.value.kind == TAG_VIDEO then [tag.value] else [])
  {
    if tag == None {
      assert tags + [] == tags;
    } else {
      assert (tags + [tag.value])[..|tags|] == tags;
    }
  }

  /** One packet: a video packet makes its call, any other leaves the video alone. */
  lemma PacketIsCall(d: Dump, p: seq<byte>, freq: int)
    requires Readable(d.camera, d.nal, p) && freq > 0
    ensures var next := Handle(d, p, freq);
            if IsVideo(p) then
              var r := Receive(d.camera, d.nal, p);
              && (next.Some? ==> next.value.camera == r.camera && next.value.nal == r.nal)
              && if r.unit == None then
                   next.Some? && next.value.video == d.video && VideoTags(next.value.tags) == VideoTags(d.tags)
                 else
                   var step := VideoHandler(d.video, r.unit.value, freq);
                   && (next.Some? <==> step.Some?)
                   && (next.Some? ==> next.value.video == step.value.video
                                      && VideoTags(next.value.tags) == VideoTags(d.tags) + Listed(step.value.tag))
            else next.Some? && next.value.camera == d.camera && next.value.nal == d.nal && next.value.video == d.video
                 && VideoTags(next.value.tags) == VideoTags(d.tags)
  {
    hide VideoHandler, AudioHandler, Receive, VideoTags, Readable, StampOf;
    if IsVideo(p) {
      ReceivedByPs(d.camera, d.nal, p);
      var r := Receive(d.camera, d.nal, p);
      if r.unit.Some? {
        var step := VideoHandler(d.video, r.unit.value, freq);
        VideoHandlerKind(d.video, r.unit.value, freq);
        if step.Some? {
          VideoTagsListed(d.tags, step.value.tag);
        }
      }
    } else if IsAudio(p) && d.videoBegin {
      VideoTagsListed(d.tags, AudioHandler(d.audio, p[12..], TimeOf(p), PayloadType(p) == 8).1);
      AudioHandlerKind(d.audio, p[12..], TimeOf(p), PayloadType(p) == 8);
      assert VideoTags(d.tags) + [] == VideoTags(d.tags);
    }
  }

  /** Audio and foreign packets do not touch the video: a run's video tags are those of its calls. */
  lemma {:induction false} RunIsUnits(d: Dump, packets: seq<seq<byte>>, freq: int)
    requires ReadableRun(d.camera, d.nal, packets) && freq > 0
    ensures var end, r := Run(d, packets, freq), RunUnits(d.video, Units(d.camera, d.nal, packets), freq);
            && (end.Some? <==> r.Some?)
            && (end.Some? ==> end.value.video == r.value.0
                              && VideoTags(end.value.tags) == VideoTags(d.tags) + r.value.1)
    decreases |packets|
  {
    hide VideoHandler, Handle, Receive, VideoTags, Readable, IsVideo;
    if packets != [] {
      var p := packets[0];
      var next := Handle(d, p, freq);
      PacketIsCall(d, p, freq);
      var units := Units(d.camera, d.nal, packets);
      if next.Some? {
        RunIsUnits(next.value, packets[1..], freq);
        var rest := Units(next.value.camera, next.value.nal, packets[1..]);
        if IsVideo(p) && Receive(d.camera, d.nal, p).unit.Some? {
          var u := Receive(d.camera, d.nal, p).unit.value;
          assert units == [u] + rest && units[1..] == rest;
          var after := RunUnits(next.value.video, rest, freq);
          if after.Some? {
            var tag := Listed(VideoHandler(d.video, u, freq).value.tag);
            assert (VideoTags(d.tags) + tag) + after.value.1 == VideoTags(d.tags) + (tag + after.value.1);
          }
        } else {
          assert units == rest;
        }
      } else {
        assert units[0] == Receive(d.camera, d.nal, p).unit.value;
      }
    } else {
      assert VideoTags(d.tags) + [] == VideoTags(d.tags);
    }
  }

  lemma ReceivedByPs(camera: Camera, nal: seq<byte>, p: seq<byte>)
    requires IsVideo(p) && Readable(camera, nal, p)
    ensures var r := Receive(camera, nal, p);
            PayloadType(p) == 96 && r.camera == PsCamera ==> r.unit == None && r.nal == nal
  {
  }

  lemma VideoHandlerKind(v: Video, u: Unit, freq: int)
    requires u.nal != [] && freq > 0
    ensures var s := VideoHandler(v, u, freq); s.Some? && s.value.tag.Some? ==> s.value.tag.value.kind == TAG_VIDEO
  {
  }

  lemma AudioHandlerKind(clock: Clock, audio: seq<byte>, time: int, aLaw: bool)
    ensures var t := AudioHandler(clock, audio, time, aLaw).1; t.Some? ==> t.value.kind == TAG_AUDIO
  {
  }

  // ---------- what should be written ----------

  /** The first two parameter sets that came. */
  function FirstSets(units: seq<Unit>): (r: seq<seq<byte>>)
    ensures |r| <= 2 && forall i :: 0 <= i < |r| ==> IsParameterSet(r[i])
  {
    if units == [] then []
    else
      var sets, nal := FirstSets(units[..|units| - 1]), units[|units| - 1].nal;
      if |sets| < 2 && IsParameterSet(nal) then sets + [nal] else sets
  }

  /** The slices (types 1 and 5) received after the second parameter set. */
  function Slices(units: seq<Unit>): seq<Unit> {
    if units == [] then []
    else
      var front, last := units[..|units| - 1], units[|units| - 1];
      Slices(front) + (if |FirstSets(front)| == 2 && IsSlice(last.nal) then [last] else [])
  }

  /** Up to and including the last slice with a marker. */
  function UpToMarker(slices: seq<Unit>): (r: seq<Unit>)
    ensures r <= slices
  {
    if slices == [] || slices[|slices| - 1].marker then slices else UpToMarker(slices[..|slices| - 1])
  }

  function Nals(units: seq<Unit>): (r: seq<seq<byte>>)
    ensures |r| == |units|
  {
    seq(|units|, i requires 0 <= i < |units| => units[i].nal)
  }

  /** The NAL units that a player reads from the coded-frame tags: each body behind its five bytes. */
  function NalsInTags(tags: seq<Tag>): Option<seq<seq<byte>>> {
    if tags == [] then Some([])
    else
      var front, body := NalsInTags(tags[..|tags| - 1]), tags[|tags| - 1].body;
      if front == None || |body| < 5 then None
      else if body[1] != 1 then front
      else
        var nals := ReadPrefixed(body[5..]);
        if nals == None then None else Some(front.value + nals.value)
  }

  /** The slices behind the last marker. */
  function Waiting(slices: seq<Unit>): seq<Unit> { slices[|UpToMarker(slices)|..] }

  /** What holds after each run of calls: the count, the units that wait, and the units that were written. */
  predicate InStep(v: Video, tags: seq<Tag>, units: seq<Unit>) {
    && v.count == |FirstSets(units)|
    && v.pending == Prefixed(Nals(Waiting(Slices(units))))
    && NalsInTags(tags) == Some(Nals(UpToMarker(Slices(units))))
  }

  /** NAL units within the 512K frame buffer have 32-bit lengths. */
  predicate Short(units: seq<Unit>) { forall i :: 0 <= i < |units| ==> 0 < |units[i].nal| < 0x1_0000_0000 }

  lemma NalsSnoc(units: seq<Unit>, u: Unit)
    ensures Nals(units + [u]) == Nals(units) + [u.nal]
  {
  }

  lemma NalsAppend(a: seq<Unit>, b: seq<Unit>)
    ensures Nals(a + b) == Nals(a) + Nals(b)
  {
  }

  lemma {:induction false} SlicesAreUnits(units: seq<Unit>)
    requires Short(units)
    ensures Short(Slices(units)) && Lengths32(Nals(Slices(units)))
  {
    if units != [] {
      SlicesAreUnits(units[..|units| - 1]);
    }
  }

  lemma NalsInTagsSnoc(tags: seq<Tag>, tag: Tag)
    ensures NalsInTags(tags + [tag])
            == var front := NalsInTags(tags);
               if front == None || |tag.body| < 5 then None
               else if tag.body[1] != 1 then front
               else
                 var nals := ReadPrefixed(tag.body[5..]);
                 if nals == None then None else Some(front.value + nals.value)
  {
    assert (tags + [tag])[..|tags|] == tags;
  }

  /** A slice waits; its marker completes the frame. */
  lemma SliceInStep(slices: seq<Unit>, u: Unit, tags: seq<Tag>, stamp: int)
    requires u.nal != [] && Lengths32(Nals(slices + [u])) && NalsInTags(tags) == Some(Nals(UpToMarker(slices)))
    ensures var pending, all := Prefixed(Nals(Waiting(slices))) + LengthPrefixed(u.nal), slices + [u];
            if u.marker then
              Waiting(all) == [] && UpToMarker(all) == all
              && NalsInTags(tags + [Tag(TAG_VIDEO, stamp, NaluTag(u.nal) + pending)]) == Some(Nals(all))
            else UpToMarker(all) == UpToMarker(slices) && pending == Prefixed(Nals(Waiting(all)))
  {
    hide Prefixed, LengthPrefixed, NalsInTags, ReadPrefixed;
    var w, all := Waiting(slices), slices + [u];
    var pending := Prefixed(Nals(w)) + LengthPrefixed(u.nal);
    NalsSnoc(w, u);
    PrefixedSnoc(Nals(w), u.nal);
    assert pending == Prefixed(Nals(w + [u]));
    assert all[..|slices|] == slices;
    if u.marker {
      var tag := Tag(TAG_VIDEO, stamp, NaluTag(u.nal) + pending);
      assert tag.body[5..] == pending && tag.body[1] == 1;
      assert UpToMarker(slices) + (w + [u]) == all;
      NalsAppend(UpToMarker(slices), w + [u]);
      assert Lengths32(Nals(w + [u])) by {
        assert Nals(w + [u]) == Nals(all)[|UpToMarker(slices)|..];
      }
      PrefixedRoundTrip(Nals(w + [u]));
      NalsInTagsSnoc(tags, tag);
    } else {
      assert Waiting(all) == w + [u];
    }
  }

  /** What a call does that brings no slice to wait. */
  lemma OtherCall(v: Video, u: Unit, freq: int)
    requires u.nal != [] && freq > 0 && VideoHandler(v, u, freq).Some? && 0 <= v.count <= 2
    requires !(v.count == 2 && IsSlice(u.nal))
    ensures var s := VideoHandler(v, u, freq).value;
            && s.video.pending == v.pending
            && s.video.count == v.count + (if v.count < 2 && IsParameterSet(u.nal) then 1 else 0)
            && (s.tag.Some? ==> |s.tag.value.body| >= 5 && s.tag.value.body[1] == 0)
  {
    hide StampOf, Advance, Signed32, SequenceHeader;
  }

  /** What a slice does. */
  lemma SliceCall(v: Video, u: Unit, freq: int)
    requires u.nal != [] && freq > 0 && v.count == 2 && IsSlice(u.nal)
    ensures var s, pending := VideoHandler(v, u, freq), v.pending + LengthPrefixed(u.nal);
            s.Some? && s.value.video.count == 2
            && if u.marker then
                 s.value.video.pending == []
                 && s.value.tag == Some(Tag(TAG_VIDEO, Signed32(StampOf(v.clock, u.time, freq)),
                                             NaluTag(u.nal) + pending))
               else s.value.video.pending == pending && s.value.tag == None
  {
    hide StampOf, Advance, Signed32, LengthPrefixed, NaluTag;
  }

  lemma SlicesSnoc(units: seq<Unit>, u: Unit)
    ensures FirstSets(units + [u])
            == (if |FirstSets(units)| < 2 && IsParameterSet(u.nal) then FirstSets(units) + [u.nal]
                else FirstSets(units))
    ensures Slices(units + [u])
            == (if |FirstSets(units)| == 2 && IsSlice(u.nal) then Slices(units) + [u] else Slices(units))
  {
    assert (units + [u])[..|units|] == units;
  }

  /** One call keeps the step. */
  lemma CallInStep(v: Video, tags: seq<Tag>, units: seq<Unit>, u: Unit, freq: int)
    requires InStep(v, tags, units) && Short(units) && 0 < |u.nal| < 0x1_0000_0000 && freq > 0
    requires VideoHandler(v, u, freq).Some?
    ensures var s := VideoHandler(v, u, freq).value; InStep(s.video, tags + Listed(s.tag), units + [u])
  {
    hide VideoHandler, Prefixed, NalsInTags, ReadPrefixed, FirstSets, Slices, UpToMarker, IsSlice, IsParameterSet;
    var slices := Slices(units);
    SlicesSnoc(units, u);
    assert tags + [] == tags;
    var s := VideoHandler(v, u, freq).value;
    if |FirstSets(units)| == 2 && IsSlice(u.nal) {
      SliceCall(v, u, freq);
      SlicesAreUnits(units);
      NalsSnoc(slices, u);
      SliceInStep(slices, u, tags, Signed32(StampOf(v.clock, u.time, freq)));
      if u.marker {
        PrefixedNil();
        assert Nals([]) == [];
      }
    } else {
      OtherCall(v, u, freq);
      if s.tag.Some? {
        NalsInTagsSnoc(tags, s.tag.value);
      }
    }
  }

  lemma {:induction false} RunUnitsSnoc(v: Video, units: seq<Unit>, u: Unit, freq: int)
    requires NonEmpty(units) && u.nal != [] && freq > 0
    ensures NonEmpty(units + [u])
    ensures var r := RunUnits(v, units, freq);
            RunUnits(v, units + [u], freq)
            == if r == None then None
               else
                 var s := VideoHandler(r.value.0, u, freq);
                 if s == None then None else Some((s.value.video, r.value.1 + Listed(s.value.tag)))
    decreases |units|
  {
    hide VideoHandler;
    var all := units + [u];
    if units == [] {
      assert all[1..] == [];
      var s := VideoHandler(v, u, freq);
      if s.Some? {
        assert Listed(s.value.tag) + [] == [] + Listed(s.value.tag);
      }
    } else {
      assert all[0] == units[0] && all[1..] == units[1..] + [u];
      var s := VideoHandler(v, units[0], freq);
      if s.Some? {
        RunUnitsSnoc(s.value.video, units[1..], u, freq);
        var r := RunUnits(s.value.video, units[1..], freq);
        if r.Some? {
          var t := VideoHandler(r.value.0, u, freq);
          if t.Some? {
            assert (Listed(s.value.tag) + r.value.1) + Listed(t.value.tag)
                   == Listed(s.value.tag) + (r.value.1 + Listed(t.value.tag));
          }
        }
      }
    }
  }

  lemma ShortFront(units: seq<Unit>)
    requires units != [] && Short(units)
    ensures var front, u := units[..|units| - 1], units[|units| - 1];
            Short(front) && NonEmpty(front) && NonEmpty(units) && 0 < |u.nal| < 0x1_0000_0000
  {
  }

  /** For every run of calls that goes on. */
  lemma {:induction false} CallsInStep(units: seq<Unit>, freq: int)
    requires Short(units) && freq > 0 && RunUnits(NEW_VIDEO, units, freq).Some?
    ensures var r := RunUnits(NEW_VIDEO, units, freq).value; InStep(r.0, r.1, units)
  {
    hide VideoHandler;
    if units == [] {
      assert Nals([]) == [];
    } else {
      var front, u := units[..|units| - 1], units[|units| - 1];
      assert front + [u] == units;
      ShortFront(units);
      hide InStep;
      RunUnitsSnoc(NEW_VIDEO, front, u, freq);
      CallsInStep(front, freq);
      var r := RunUnits(NEW_VIDEO, front, freq).value;
      CallInStep(r.0, r.1, front, u, freq);
    }
  }

  // ---------- packetisation ----------

  /** A NAL unit sent as one RTP packet, or as FU-A fragments (section 5.8 of RFC 6184). */
  datatype Delivery = Single(packet: seq<byte>) | Fragments(packets: seq<seq<byte>>)
  {
    function Packets(): seq<seq<byte>> { if Single? then [packet] else packets }
  }

  /** Sent as video with at least one byte. */
  predicate Sent(p: seq<byte>) { IsVideo(p) && |p| >= 13 }

  /** Fragment `i` of `n`: the indicator keeps the importance bits and says 28, the header keeps the type and says
      whether this is the first or the last fragment. */
  predicate IsFragment(p: seq<byte>, nal: seq<byte>, i: nat, n: nat)
    requires nal != []
  {
    && Sent(p) && |p| >= 14
    && p[12] == nal[0] / 32 * 32 + 28
    && p[13] == (if i == 0 then 128 else 0) + (if i == n - 1 then 64 else 0) + nal[0] % 32
  }

  function Chunks(packets: seq<seq<byte>>): seq<byte>
    requires forall i :: 0 <= i < |packets| ==> |packets[i]| >= 14
  {
    if packets == [] then [] else Chunks(packets[..|packets| - 1]) + packets[|packets| - 1][14..]
  }

  /** The delivery carries the unit. A unit that starts with type 28 is not one that RFC 6184 sends. */
  predicate Carries(d: Delivery, u: Unit) {
    && u.nal != [] && NalType(u.nal) != 28
    && d.Packets() != []
    && (d.Single? ==> Sent(d.packet) && d.packet[12..] == u.nal)
    && (d.Fragments? ==>
          && (forall i :: 0 <= i < |d.packets| ==> IsFragment(d.packets[i], u.nal, i, |d.packets|))
          && u.nal == [u.nal[0]] + Chunks(d.packets))
    && var last := d.Packets()[|d.Packets()| - 1];
       IsRtp(last) && TimeOf(last) == u.time && IsMarked(last) == u.marker
  }

  function AllPackets(ds: seq<Delivery>): seq<seq<byte>> {
    if ds == [] then [] else ds[0].Packets() + AllPackets(ds[1..])
  }

  predicate CarriesAll(ds: seq<Delivery>, units: seq<Unit>) {
    |ds| == |units| && forall i :: 0 <= i < |ds| ==> Carries(ds[i], units[i])
  }

  /** The buffer while the fragments of `nal` from `i` on arrive: the bytes so far. */
  lemma {:induction false} FragmentsGiveUnit(buffer: seq<byte>, packets: seq<seq<byte>>, u: Unit, i: nat,
                                             rest: seq<seq<byte>>)
    requires Carries(Fragments(packets), u) && i < |packets|
    requires i > 0 ==> buffer == [u.nal[0]] + Chunks(packets[..i])
    requires ReadableRun(RtspCamera, u.nal, rest)
    ensures ReadableRun(RtspCamera, buffer, packets[i..] + rest)
    ensures Units(RtspCamera, buffer, packets[i..] + rest) == [u] + Units(RtspCamera, u.nal, rest)
    decreases |packets| - i
  {
    hide *;
    var n, p, all := |packets|, packets[i], packets[i..] + rest;
    assert all == [p] + (packets[i + 1..] + rest);
    FragmentReceived(buffer, packets, u, i);
    var so := [u.nal[0]] + Chunks(packets[..i + 1]);
    if i == n - 1 {
      assert packets[..n] == packets && packets[n..] + rest == rest;
    } else {
      FragmentsGiveUnit(so, packets, u, i + 1, rest);
    }
    UnitsCons(RtspCamera, buffer, p, packets[i + 1..] + rest);
    ListedIs(u);
  }

  lemma ListedIs(u: Unit)
    ensures Listed(Some(u)) == [u] && Listed<Unit>(None) == []
  {
  }

  /** What one of the fragments does. */
  lemma FragmentReceived(buffer: seq<byte>, packets: seq<seq<byte>>, u: Unit, i: nat)
    requires Carries(Fragments(packets), u) && i < |packets|
    requires i > 0 ==> buffer == [u.nal[0]] + Chunks(packets[..i])
    ensures u.nal != [] && IsVideo(packets[i]) && Readable(RtspCamera, buffer, packets[i])
    ensures forall j :: 0 <= j < |packets| ==> |packets[j]| >= 14
    ensures var so := [u.nal[0]] + Chunks(packets[..i + 1]);
            && Receive(RtspCamera, buffer, packets[i])
               == Reception(RtspCamera, so, if i == |packets| - 1 then Some(u) else None)
            && (i == |packets| - 1 ==> so == u.nal)
  {
    hide *;
    CarriesFragments(packets, u, i);
    var n, p := |packets|, packets[i];
    ChunksSnoc(packets, i);
    FragmentAppends(buffer, p, u.nal, i, n);
    ReceiveFragment(buffer, p, u.nal, i, n);
    assert packets[..n] == packets;
    assert i > 0 ==> ([u.nal[0]] + Chunks(packets[..i])) + p[14..] == [u.nal[0]] + (Chunks(packets[..i]) + p[14..]);
    assert i == 0 ==> [u.nal[0]] + p[14..] == [u.nal[0]] + ([] + p[14..]);
  }

  lemma ChunksSnoc(packets: seq<seq<byte>>, i: nat)
    requires i < |packets| && forall j :: 0 <= j < |packets| ==> |packets[j]| >= 14
    ensures Chunks(packets[..i + 1]) == Chunks(packets[..i]) + packets[i][14..]
    ensures i == 0 ==> Chunks(packets[..i]) == []
  {
    assert packets[..i + 1][..i] == packets[..i];
  }

  /** What the fragments of a unit say. */
  lemma CarriesFragments(packets: seq<seq<byte>>, u: Unit, i: nat)
    requires Carries(Fragments(packets), u) && i < |packets|
    ensures forall j :: 0 <= j < |packets| ==> |packets[j]| >= 14
    ensures u.nal != [] && IsFragment(packets[i], u.nal, i, |packets|)
    ensures u.nal == [u.nal[0]] + Chunks(packets)
    ensures i == |packets| - 1 ==> IsRtp(packets[i]) && u == Unit(u.nal, TimeOf(packets[i]), IsMarked(packets[i]))
  {
    hide Chunks, TimeOf, IsMarked;
    var d := Fragments(packets);
    assert d.Packets() == packets;
  }

  lemma UnitsCons(camera: Camera, buffer: seq<byte>, p: seq<byte>, rest: seq<seq<byte>>)
    requires IsVideo(p) && Readable(camera, buffer, p)
    requires var r := Receive(camera, buffer, p); ReadableRun(r.camera, r.nal, rest)
    ensures ReadableRun(camera, buffer, [p] + rest)
    ensures var r := Receive(camera, buffer, p);
            Units(camera, buffer, [p] + rest) == Listed(r.unit) + Units(r.camera, r.nal, rest)
  {
    hide IsVideo, Readable, Receive;
    assert ([p] + rest)[0] == p && ([p] + rest)[1..] == rest;
  }

  /** A start bit rebuilds the first byte of the unit; every fragment appends its bytes. */
  lemma FragmentAppends(buffer: seq<byte>, p: seq<byte>, nal: seq<byte>, i: nat, n: nat)
    requires nal != [] && i < n && IsFragment(p, nal, i, n)
    ensures Appended(buffer, p[12..]) == (if i == 0 then [nal[0]] else buffer) + p[14..]
    ensures IsFuA(p[12..])
  {
    assert p[12..][2..] == p[14..];
  }

  lemma ReceiveFragment(buffer: seq<byte>, p: seq<byte>, nal: seq<byte>, i: nat, n: nat)
    requires nal != [] && i < n && IsFragment(p, nal, i, n) && IsFuA(p[12..]) && Appended(buffer, p[12..]) != []
    ensures IsVideo(p) && Readable(RtspCamera, buffer, p)
    ensures var whole := Appended(buffer, p[12..]);
            Receive(RtspCamera, buffer, p)
            == Reception(RtspCamera, whole, if i == n - 1 then Some(Unit(whole, TimeOf(p), IsMarked(p))) else None)
  {
    hide Appended, TimeOf;
    assert p[12..][1] == p[13];
  }

  lemma CarriesSome(d: Delivery, u: Unit)
    requires Carries(d, u)
    ensures d.Packets() != [] && u.nal != []
  {
    hide Chunks;
  }

  /** A single NAL unit packet. */
  lemma SingleGivesUnit(buffer: seq<byte>, p: seq<byte>, u: Unit, rest: seq<seq<byte>>)
    requires Carries(Single(p), u) && ReadableRun(RtspCamera, buffer, rest)
    ensures ReadableRun(RtspCamera, buffer, [p] + rest)
    ensures Units(RtspCamera, buffer, [p] + rest) == [u] + Units(RtspCamera, buffer, rest)
  {
    hide Chunks, TimeOf;
    assert IsVideo(p) && Readable(RtspCamera, buffer, p);
    assert Receive(RtspCamera, buffer, p) == Reception(RtspCamera, buffer, Some(u));
    UnitsCons(RtspCamera, buffer, p, rest);
    ListedIs(u);
  }

  /** From an RTSP camera every packetisation gives exactly the units that were sent, whatever the buffer held. */
  lemma {:induction false} RtspGivesUnits(buffer: seq<byte>, ds: seq<Delivery>, units: seq<Unit>)
    requires CarriesAll(ds, units)
    ensures ReadableRun(RtspCamera, buffer, AllPackets(ds)) && Units(RtspCamera, buffer, AllPackets(ds)) == units
    decreases |ds|
  {
    hide Chunks, TimeOf, Carries;
    if ds != [] {
      var rest := AllPackets(ds[1..]);
      assert units == [units[0]] + units[1..];
      if ds[0].Single? {
        RtspGivesUnits(buffer, ds[1..], units[1..]);
        SingleGivesUnit(buffer, ds[0].packet, units[0], rest);
        assert AllPackets(ds) == [ds[0].packet] + rest;
      } else {
        var u := units[0];
        RtspGivesUnits(u.nal, ds[1..], units[1..]);
        var packets := ds[0].packets;
        CarriesSome(ds[0], u);
        assert Carries(Fragments(packets), u);
        assert packets[0..] + rest == AllPackets(ds);
        FragmentsGiveUnit(buffer, packets, u, 0, rest);
      }
    }
  }

  // ---------- the camera ----------

  /** Type 96, the type of cameras whose kind is not known. */
  predicate FromCamera(p: seq<byte>): (r: bool)
    ensures r ==> |p| >= 12
  {
    IsVideo(p) && PayloadType(p) == 96
  }

  /** The payloads of type 96, in order. */
  function CameraPayloads(packets: seq<seq<byte>>): seq<seq<byte>> {
    if packets == [] then []
    else (if FromCamera(packets[0]) then [packets[0][12..]] else []) + CameraPayloads(packets[1..])
  }

  function Joined(payloads: seq<seq<byte>>): seq<byte> {
    if payloads == [] then [] else payloads[0] + Joined(payloads[1..])
  }

  /** The camera type after the run: the first payload of type 96 settles it. */
  function SettledCamera(camera: Camera, packets: seq<seq<byte>>): Camera {
    var own := CameraPayloads(packets);
    if own == [] || camera != Default || |own[0]| < 3 then camera else Detected(own[0])
  }

  /** What a run adds to the raw file: all payloads of type 96, or none. */
  function RawFile(camera: Camera, packets: seq<seq<byte>>): seq<byte> {
    if SettledCamera(camera, packets) == PsCamera then Joined(CameraPayloads(packets)) else []
  }

  /** The type is settled once for the whole run, and either all or none of the payloads of type 96 are in the raw
      file. */
  lemma {:induction false} CameraSettlesOnce(d: Dump, packets: seq<seq<byte>>, freq: int)
    requires ReadableRun(d.camera, d.nal, packets) && freq > 0
    ensures var end := Run(d, packets, freq);
            end.Some? ==>
              && end.value.camera == SettledCamera(d.camera, packets)
              && end.value.ps == d.ps + RawFile(d.camera, packets)
    decreases |packets|
  {
    if packets == [] {
      assert d.ps + [] == d.ps;
    } else {
      hide ReadableRun, Handle, Readable, Detected, FromCamera, SettledCamera, RawFile;
      var p := packets[0];
      ReadableRest(d, packets, freq);
      PacketCamera(d, p, freq);
      var next := Handle(d, p, freq);
      if next.Some? {
        CameraSettlesOnce(next.value, packets[1..], freq);
        SettledCons(d.camera, packets);
        PutBehind(d.ps, if FromCamera(p) && next.value.camera == PsCamera then p[12..] else [],
                  RawFile(next.value.camera, packets[1..]));
      }
    }
  }

  lemma ReadableRest(d: Dump, packets: seq<seq<byte>>, freq: int)
    requires packets != [] && ReadableRun(d.camera, d.nal, packets) && freq > 0
    ensures Readable(d.camera, d.nal, packets[0])
    ensures var next := Handle(d, packets[0], freq);
            next.Some? ==> ReadableRun(next.value.camera, next.value.nal, packets[1..])
  {
    hide Handle, Receive, Readable;
    PacketIsCall(d, packets[0], freq);
  }

  lemma PutBehind(a: seq<byte>, b: seq<byte>, c: seq<byte>)
    ensures (a + b) + c == a + (b + c)
  {
  }

  /** The first packet either settles the type or leaves the rest to do so, and its payload comes first. */
  lemma SettledCons(camera: Camera, packets: seq<seq<byte>>)
    requires packets != []
    requires FromCamera(packets[0]) && camera == Default ==> |packets[0]| >= 15
    ensures var p, rest := packets[0], packets[1..];
            var next := if FromCamera(p) && camera == Default then Detected(p[12..]) else camera;
            && SettledCamera(camera, packets) == SettledCamera(next, rest)
            && RawFile(camera, packets)
               == (if FromCamera(p) && next == PsCamera then p[12..] else []) + RawFile(next, rest)
  {
    hide FromCamera;
    var p, own, others := packets[0], CameraPayloads(packets), CameraPayloads(packets[1..]);
    if FromCamera(p) {
      assert own[0] == p[12..] && own[1..] == others;
    } else {
      assert own == others;
    }
  }

  lemma PacketCamera(d: Dump, p: seq<byte>, freq: int)
    requires Readable(d.camera, d.nal, p) && freq > 0
    ensures FromCamera(p) && d.camera == Default ==> |p| >= 15 && Detected(p[12..]) != Default
    ensures var next := Handle(d, p, freq);
            next.Some? ==>
              && next.value.camera == (if FromCamera(p) && d.camera == Default then Detected(p[12..]) else d.camera)
              && next.value.ps == d.ps + (if FromCamera(p) && next.value.camera == PsCamera then p[12..] else [])
  {
    hide VideoHandler, AudioHandler, Appended, StampOf;
  }

  /** No payload of type 96 goes to the raw file. */
  predicate NoneToPs(camera: Camera, packets: seq<seq<byte>>) {
    var own := CameraPayloads(packets);
    own == [] || camera == RtspCamera || (camera == Default && |own[0]| >= 3 && Detected(own[0]) == RtspCamera)
  }

  /** Then the units are those of a camera known as RTSP. */
  lemma {:induction false} UnitsAsFromRtsp(camera: Camera, buffer: seq<byte>, packets: seq<seq<byte>>)
    requires NoneToPs(camera, packets)
    ensures ReadableRun(camera, buffer, packets) <==> ReadableRun(RtspCamera, buffer, packets)
    ensures ReadableRun(camera, buffer, packets)
            ==> Units(camera, buffer, packets) == Units(RtspCamera, buffer, packets)
    decreases |packets|
  {
    hide Receive, Readable, IsVideo, FromCamera, Detected;
    if packets != [] {
      var p := packets[0];
      ReceivedAsFromRtsp(camera, buffer, p, CameraPayloads(packets[1..]));
      if Readable(camera, buffer, p) {
        if IsVideo(p) {
          var r := Receive(camera, buffer, p);
          UnitsAsFromRtsp(r.camera, r.nal, packets[1..]);
        } else {
          UnitsAsFromRtsp(camera, buffer, packets[1..]);
        }
      }
    }
  }

  lemma ReceivedAsFromRtsp(camera: Camera, buffer: seq<byte>, p: seq<byte>, others: seq<seq<byte>>)
    requires var own := (if FromCamera(p) then [p[12..]] else []) + others;
             own == [] || camera == RtspCamera || (camera == Default && |own[0]| >= 3 && Detected(own[0]) == RtspCamera)
    ensures FromCamera(p) ==> IsVideo(p)
    ensures Readable(camera, buffer, p) <==> Readable(RtspCamera, buffer, p)
    ensures IsVideo(p) && Readable(camera, buffer, p)
            ==> var r := Receive(camera, buffer, p);
                && Receive(RtspCamera, buffer, p) == r.(camera := RtspCamera)
                && r.camera == (if FromCamera(p) then RtspCamera else camera)
  {
    hide Detected, Appended;
  }

  /** Every packetisation gives exactly the units that were sent, whatever the buffer held. */
  lemma DeliveriesGiveUnits(camera: Camera, buffer: seq<byte>, ds: seq<Delivery>, units: seq<Unit>)
    requires CarriesAll(ds, units) && NoneToPs(camera, AllPackets(ds))
    ensures ReadableRun(camera, buffer, AllPackets(ds)) && Units(camera, buffer, AllPackets(ds)) == units
  {
    hide CarriesAll, NoneToPs, ReadableRun, Units;
    RtspGivesUnits(buffer, ds, units);
    UnitsAsFromRtsp(camera, buffer, AllPackets(ds));
  }

  lemma {:induction false} ChunksStart(packets: seq<seq<byte>>)
    requires packets != [] && |packets[0]| >= 15 && forall j :: 0 <= j < |packets| ==> |packets[j]| >= 14
    ensures Chunks(packets) != [] && Chunks(packets)[0] == packets[0][14]
    decreases |packets|
  {
    if |packets| == 1 {
      assert Chunks(packets[..0]) == [];
    } else {
      ChunksStart(packets[..|packets| - 1]);
    }
  }

  /** Which first units make a camera known as RTSP: a whole SPS or PPS with the highest importance and no 0 in its
      second or 1 in its third byte, or a fragmented unit whose second byte is not 1. */
  lemma DetectedExactly(d: Delivery, u: Unit)
    requires Carries(d, u) && |d.Packets()[0]| >= 15
    ensures Detected(d.Packets()[0][12..]) == RtspCamera
            <==> |u.nal| >= 2
                 && if d.Single? then (u.nal[0] == 0x67 || u.nal[0] == 0x68) && u.nal[1] != 0 && u.nal[2] != 1
                    else u.nal[1] != 1
  {
    hide TimeOf, Chunks;
    if d.Fragments? {
      var packets, p := d.packets, d.packets[0];
      CarriesFragments(packets, u, 0);
      ChunksStart(packets);
      assert p[12..][2] == p[14] == u.nal[1];
    }
  }

  function VideoPackets(packets: seq<seq<byte>>): seq<seq<byte>> {
    if packets == [] then []
    else (if IsVideo(packets[0]) then [packets[0]] else []) + VideoPackets(packets[1..])
  }

  lemma ForeignIsReadable(camera: Camera, buffer: seq<byte>, p: seq<byte>)
    requires !IsVideo(p)
    ensures Readable(camera, buffer, p)
  {
  }

  /** Packets that are not video may lie anywhere between the others. */
  lemma {:induction false} OnlyVideoPacketsMatter(camera: Camera, buffer: seq<byte>, packets: seq<seq<byte>>)
    ensures ReadableRun(camera, buffer, packets) <==> ReadableRun(camera, buffer, VideoPackets(packets))
    ensures ReadableRun(camera, buffer, packets)
            ==> Units(camera, buffer, packets) == Units(camera, buffer, VideoPackets(packets))
    decreases |packets|
  {
    hide Receive, IsVideo;
    if packets != [] {
      var p := packets[0];
      if !IsVideo(p) {
        ForeignIsReadable(camera, buffer, p);
        assert VideoPackets(packets) == [] + VideoPackets(packets[1..]) == VideoPackets(packets[1..]);
        OnlyVideoPacketsMatter(camera, buffer, packets[1..]);
      } else {
        assert VideoPackets(packets)[0] == p && VideoPackets(packets)[1..] == VideoPackets(packets[1..]);
        if Readable(camera, buffer, p) {
          var r := Receive(camera, buffer, p);
          OnlyVideoPacketsMatter(r.camera, r.nal, packets[1..]);
        }
      }
    }
  }

  // ---------- when a run stops ----------

  /** What videoHandler has kept of the parameter sets. */
  predicate KeepsSets(v: Video, sets: seq<seq<byte>>) {
    && v.count == |sets|
    && (v.sps.Some? <==> exists i :: 0 <= i < |sets| && NalType2(sets[i]) == NAL_SPS)
    && (v.pps.Some? <==> exists i :: 0 <= i < |sets| && NalType2(sets[i]) == NAL_PPS)
    && (v.sps.Some? ==> v.sps.value in sets && NalType2(v.sps.value) == NAL_SPS)
  }

  function NalType2(nal: seq<byte>): int { if nal == [] then -1 else NalType(nal) }

  /** The two parameter sets are one SPS of at least four bytes and one PPS. */
  predicate GoodPair(sets: seq<seq<byte>>)
    requires |sets| == 2
  {
    || (NalType2(sets[0]) == NAL_SPS && NalType2(sets[1]) == NAL_PPS && |sets[0]| >= 4)
    || (NalType2(sets[0]) == NAL_PPS && NalType2(sets[1]) == NAL_SPS && |sets[1]| >= 4)
  }

  lemma CallGoesOn(v: Video, sets: seq<seq<byte>>, u: Unit, freq: int)
    requires KeepsSets(v, sets) && |sets| <= 2 && u.nal != [] && freq > 0
    requires forall i :: 0 <= i < |sets| ==> IsParameterSet(sets[i])
    ensures var sets' := if |sets| < 2 && IsParameterSet(u.nal) then sets + [u.nal] else sets;
            && (VideoHandler(v, u, freq).Some? <==> sets' == sets || |sets'| < 2 || GoodPair(sets'))
            && (VideoHandler(v, u, freq).Some? ==> KeepsSets(VideoHandler(v, u, freq).value.video, sets'))
  {
    hide StampOf, Advance, Signed32, SequenceHeader, LengthPrefixed, NaluTag;
    if |sets| < 2 && IsParameterSet(u.nal) {
      var all := sets + [u.nal];
      assert all[|sets|] == u.nal;
      assert forall i :: 0 <= i < |sets| ==> all[i] == sets[i];
      assert |sets| == 1 ==> sets == [sets[0]];
    }
  }

  lemma KeepsNothing()
    ensures KeepsSets(NEW_VIDEO, [])
  {
  }

  /** A run goes on exactly as long as its first two parameter sets are an SPS of at least four bytes and a PPS. */
  lemma {:induction false} RunGoesOnExactly(units: seq<Unit>, freq: int)
    requires NonEmpty(units) && freq > 0
    ensures var sets := FirstSets(units);
            && (RunUnits(NEW_VIDEO, units, freq).Some? <==> |sets| < 2 || GoodPair(sets))
            && (RunUnits(NEW_VIDEO, units, freq).Some?
                ==> KeepsSets(RunUnits(NEW_VIDEO, units, freq).value.0, sets))
  {
    hide VideoHandler, KeepsSets, GoodPair;
    if units == [] {
      KeepsNothing();
    } else {
      var front, u := units[..|units| - 1], units[|units| - 1];
      assert front + [u] == units;
      RunUnitsSnoc(NEW_VIDEO, front, u, freq);
      RunGoesOnExactly(front, freq);
      var r := RunUnits(NEW_VIDEO, front, freq);
      if r.Some? {
        CallGoesOn(r.value.0, FirstSets(front), u, freq);
      }
    }
  }

  // ---------- the whole run ----------

  /** Main result. Take any packets whose video part is a packetisation of `units`, with audio and foreign packets
      anywhere between, and whose first payload of type 96 is not taken for one of a PS camera. The run goes on to
      the end exactly when the first two parameter sets are a good pair; then the NAL units in its coded-frame tags
      are exactly the slices after the second parameter set, up to the last marker, in order, and the rest is still
      waiting. */
  lemma WrittenNalsAreReceivedSlices(packets: seq<seq<byte>>, ds: seq<Delivery>, units: seq<Unit>, freq: int)
    requires VideoPackets(packets) == AllPackets(ds) && CarriesAll(ds, units) && Short(units) && freq > 0
    requires NoneToPs(Default, packets)
    ensures ReadableRun(Default, [], packets)
    ensures var end := Run(NEW_DUMP, packets, freq);
            && (end.Some? <==> |FirstSets(units)| < 2 || GoodPair(FirstSets(units)))
            && (end.Some? ==>
              && NalsInTags(VideoTags(end.value.tags)) == Some(Nals(UpToMarker(Slices(units))))
              && ReadPrefixed(end.value.video.pending) == Some(Nals(Waiting(Slices(units)))))
  {
    hide Run, RunUnits, NalsInTags, Slices, ReadableRun, Units, AllPackets, VideoPackets, ReadPrefixed, Prefixed;
    hide FirstSets, GoodPair, KeepsSets, NoneToPs;
    RtspGivesUnits([], ds, units);
    OnlyVideoPacketsMatter(RtspCamera, [], packets);
    UnitsAsFromRtsp(Default, [], packets);
    RunIsUnits(NEW_DUMP, packets, freq);
    RunGoesOnExactly(units, freq);
    if Run(NEW_DUMP, packets, freq).Some? {
      assert VideoTags([]) + RunUnits(NEW_VIDEO, units, freq).value.1 == RunUnits(NEW_VIDEO, units, freq).value.1;
      CallsInStep(units, freq);
      SlicesAreUnits(units);
      PrefixedRoundTrip(Nals(Waiting(Slices(units))));
    }
  }

  // ---------- the times of the tags ----------

  function Times(units: seq<Unit>): (r: seq<int>)
    ensures |r| == |units|
  {
    seq(|units|, i requires 0 <= i < |units| => units[i].time)
  }

  /** Times that never go back, from `least` on. */
  predicate NeverBack(tags: seq<Tag>, least: int) {
    && (forall i :: 0 <= i < |tags| ==> least <= tags[i].time)
    && (forall i, j :: 0 <= i < j < |tags| ==> tags[i].time <= tags[j].time)
  }

  lemma VideoHandlerTime(v: Video, u: Unit, freq: int)
    requires u.nal != [] && freq > 0 && VideoHandler(v, u, freq).Some?
    ensures var s := VideoHandler(v, u, freq).value;
            s.video.clock == Advance(v.clock, u.time, freq)
            && (s.tag.Some? ==> s.tag.value.time == Signed32(StampOf(v.clock, u.time, freq)))
  {
    hide StampOf, Advance, Signed32, SequenceHeader, LengthPrefixed, NaluTag;
  }

  /** From a clock that stands for unsigned times. */
  lemma {:induction false} TagTimesFrom(v: Video, units: seq<Unit>, b: int, rtp: seq<int>, freq: int)
    requires NonEmpty(units) && freq > 0 && 1000 * freq < 0x8000_0000 && RunUnits(v, units, freq).Some?
    requires rtp != [] && Steady(rtp) && Stands(v.clock, b, rtp[0]) && Times(units) == AsInt(rtp[1..])
    requires forall i :: 0 <= i < |rtp| ==> rtp[i] - b < 0x8000_0000
    ensures NeverBack(RunUnits(v, units, freq).value.1, LastStamp(v.clock, freq))
    decreases |units|
  {
    hide VideoHandler, InRange, LastStamp, StampOf, Advance, StepOk, Signed32, Steady, Stands, NeverBack;
    if units == [] {
      NoneBack(LastStamp(v.clock, freq));
    } else {
      var t := units[0].time;
      assert t == Times(units)[0] && |rtp| > 1;
      var s := VideoHandler(v, units[0], freq).value;
      SteadyStep(v.clock, b, rtp, freq);
      VideoHandlerTime(v, units[0], freq);
      StandsStamp(v.clock, b, rtp[0], freq);
      StepExact(v.clock, t, freq);
      var b' := NextBase(b, rtp[0], rtp[1], freq);
      assert rtp[1..][0] - b' < 0x8000_0000;
      StandsStamp(s.video.clock, b', rtp[1], freq);
      SignedSmall(StampOf(v.clock, t, freq));
      assert Times(units[1..]) == Times(units)[1..];
      TagTimesFrom(s.video, units[1..], b', rtp[1..], freq);
      var rest, all := RunUnits(s.video, units[1..], freq).value.1, RunUnits(v, units, freq).value.1;
      if s.tag.Some? {
        assert all == [s.tag.value] + rest && s.tag.value.time == StampOf(v.clock, t, freq);
        FirstInOrder(s.tag.value, rest, LastStamp(v.clock, freq));
      } else {
        assert all == rest;
        LowerBound(rest, LastStamp(s.video.clock, freq), LastStamp(v.clock, freq));
      }
    }
  }

  lemma NoneBack(least: int)
    ensures NeverBack([], least)
  {
  }

  lemma FirstInOrder(first: Tag, rest: seq<Tag>, least: int)
    requires NeverBack(rest, first.time) && least <= first.time
    ensures NeverBack([first] + rest, least)
  {
  }

  lemma LowerBound(tags: seq<Tag>, least: int, lower: int)
    requires NeverBack(tags, least) && lower <= least
    ensures NeverBack(tags, lower)
  {
  }

  /** RTP times that do not wrap and span less than 2^31 ticks give video tags whose times never go back. */
  lemma VideoTagTimesNeverGoBack(units: seq<Unit>, rtp: seq<int>, freq: int)
    requires NonEmpty(units) && freq > 0 && 1000 * freq < 0x8000_0000 && RunUnits(NEW_VIDEO, units, freq).Some?
    requires Steady(rtp) && Times(units) == AsInt(rtp)
    ensures NeverBack(RunUnits(NEW_VIDEO, units, freq).value.1, 0)
  {
    hide VideoHandler, InRange, LastStamp, StampOf, Advance, Steady, Stands;
    if units != [] {
      var t := units[0].time;
      assert t == Times(units)[0] && rtp != [];
      FirstStands(rtp);
      Restarts(NEW_CLOCK, t, freq);
      var s := VideoHandler(NEW_VIDEO, units[0], freq).value;
      VideoHandlerTime(NEW_VIDEO, units[0], freq);
      assert Times(units[1..]) == AsInt(rtp)[1..] == AsInt(rtp[1..]);
      TagTimesFrom(s.video, units[1..], rtp[0], rtp, freq);
      var rest, all := RunUnits(s.video, units[1..], freq).value.1, RunUnits(NEW_VIDEO, units, freq).value.1;
      assert Signed32(0) == 0;
      if s.tag.Some? {
        assert all == [s.tag.value] + rest;
      } else {
        assert all == rest;
      }
    }
  }
}
