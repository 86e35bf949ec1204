/**
 The fixed buffers of RTPDump over whole runs: when NAL units, SPS and frames are no larger than the buffers, every
 packet of every packetisation stays inside them, and the file can be read back.
 */
module RtpFits {
  import opened Bytes
  import opened Flv
  import opened RawAvc
  import opened RtpClock
  import opened RtpDump
  import opened FlvFile

  /** Every packet of the run fits. */
  predicate FitsRun(d: Dump, packets: seq<seq<byte>>, freq: int)
    requires ReadableRun(d.camera, d.nal, packets) && freq > 0
    decreases |packets|
  {
    packets == []
    || (FitsPacket(d, packets[0])
        && var next := Handle(d, packets[0], freq);
           next == None || FitsRun(next.value, packets[1..], freq))
  }

  // ---------- the fragment buffer ----------

  /** The fragment buffer never overflows. */
  predicate BuffersFit(camera: Camera, nal: seq<byte>, packets: seq<seq<byte>>)
    requires ReadableRun(camera, nal, packets)
    decreases |packets|
  {
    if packets == [] then true
    else if !IsVideo(packets[0]) then BuffersFit(camera, nal, packets[1..])
    else
      var r := Receive(camera, nal, packets[0]);
      |r.nal| <= NAL_SIZE && BuffersFit(r.camera, r.nal, packets[1..])
  }

  lemma BuffersCons(camera: Camera, buffer: seq<byte>, p: seq<byte>, rest: seq<seq<byte>>)
    requires IsVideo(p) && Readable(camera, buffer, p)
    requires var r := Receive(camera, buffer, p);
             |r.nal| <= NAL_SIZE && ReadableRun(r.camera, r.nal, rest) && BuffersFit(r.camera, r.nal, rest)
    ensures ReadableRun(camera, buffer, [p] + rest) && BuffersFit(camera, buffer, [p] + rest)
  {
    UnitsCons(camera, buffer, p, rest);
    hide IsVideo, Readable, Receive, ReadableRun;
    assert ([p] + rest)[0] == p && ([p] + rest)[1..] == rest;
  }

  lemma {:induction false} ChunksGrow(packets: seq<seq<byte>>, i: nat)
    requires i <= |packets| && forall j :: 0 <= j < |packets| ==> |packets[j]| >= 14
    ensures |Chunks(packets[..i])| <= |Chunks(packets)|
    decreases |packets|
  {
    if i < |packets| {
      ChunksGrow(packets[..|packets| - 1], i);
      assert packets[..|packets| - 1][..i] == packets[..i];
    } else {
      assert packets[..i] == packets;
    }
  }

  lemma {:induction false} FragmentsFit(buffer: seq<byte>, packets: seq<seq<byte>>, u: Unit, i: nat,
                                        rest: seq<seq<byte>>)
    requires Carries(Fragments(packets), u) && i < |packets| && |u.nal| <= NAL_SIZE
    requires i > 0 ==> buffer == [u.nal[0]] + Chunks(packets[..i])
    requires ReadableRun(RtspCamera, u.nal, rest) && BuffersFit(RtspCamera, u.nal, rest)
    ensures ReadableRun(RtspCamera, buffer, packets[i..] + rest) && BuffersFit(RtspCamera, buffer, packets[i..] + rest)
    decreases |packets| - i
  {
    hide *;
    var n, p, all := |packets|, packets[i], packets[i..] + rest;
    assert all == [p] + (packets[i + 1..] + rest);
    FragmentReceived(buffer, packets, u, i);
    CarriesFragments(packets, u, i);
    ChunksGrow(packets, i + 1);
    var so := [u.nal[0]] + Chunks(packets[..i + 1]);
    assert |so| <= |u.nal|;
    if i == n - 1 {
      assert packets[..n] == packets && packets[n..] + rest == rest;
    } else {
      FragmentsFit(so, packets, u, i + 1, rest);
    }
    BuffersCons(RtspCamera, buffer, p, packets[i + 1..] + rest);
  }

  /** A single NAL unit packet leaves the fragment buffer alone. */
  lemma SingleFits(buffer: seq<byte>, p: seq<byte>, u: Unit, rest: seq<seq<byte>>)
    requires Carries(Single(p), u) && |buffer| <= NAL_SIZE
    requires ReadableRun(RtspCamera, buffer, rest) && BuffersFit(RtspCamera, buffer, rest)
    ensures ReadableRun(RtspCamera, buffer, [p] + rest) && BuffersFit(RtspCamera, buffer, [p] + rest)
  {
    assert IsVideo(p) && Readable(RtspCamera, buffer, p);
    assert Receive(RtspCamera, buffer, p) == Reception(RtspCamera, buffer, Some(u));
    hide *;
    BuffersCons(RtspCamera, buffer, p, rest);
  }

  predicate UnitsWithin(units: seq<Unit>, size: int) { forall i :: 0 <= i < |units| ==> |units[i].nal| <= size }

  lemma {:induction false} DeliveriesFit(buffer: seq<byte>, ds: seq<Delivery>, units: seq<Unit>)
    requires CarriesAll(ds, units) && UnitsWithin(units, NAL_SIZE) && |buffer| <= NAL_SIZE
    ensures ReadableRun(RtspCamera, buffer, AllPackets(ds)) && BuffersFit(RtspCamera, buffer, AllPackets(ds))
    decreases |ds|
  {
    hide Chunks, TimeOf, Carries, ReadableRun, BuffersFit, NAL_SIZE;
    if ds == [] {
      NoBuffers(buffer);
    } else {
      var rest, u := AllPackets(ds[1..]), units[0];
      if ds[0].Single? {
        DeliveriesFit(buffer, ds[1..], units[1..]);
        SingleFits(buffer, ds[0].packet, u, rest);
        assert AllPackets(ds) == [ds[0].packet] + rest;
      } else {
        DeliveriesFit(u.nal, ds[1..], units[1..]);
        var packets := ds[0].packets;
        CarriesSome(ds[0], u);
        assert Carries(Fragments(packets), u);
        assert packets[0..] + rest == AllPackets(ds);
        FragmentsFit(buffer, packets, u, 0, rest);
      }
    }
  }

  lemma NoBuffers(buffer: seq<byte>)
    ensures ReadableRun(RtspCamera, buffer, []) && BuffersFit(RtspCamera, buffer, [])
  {
  }

  /** Other packets do not touch the fragment buffer. */
  lemma {:induction false} OnlyVideoBuffersMatter(camera: Camera, buffer: seq<byte>, packets: seq<seq<byte>>)
    requires ReadableRun(camera, buffer, packets) && ReadableRun(camera, buffer, VideoPackets(packets))
    ensures BuffersFit(camera, buffer, packets) <==> BuffersFit(camera, buffer, VideoPackets(packets))
    decreases |packets|
  {
    hide Receive, IsVideo;
    if packets != [] {
      var p := packets[0];
      if !IsVideo(p) {
        assert VideoPackets(packets) == [] + VideoPackets(packets[1..]) == VideoPackets(packets[1..]);
        OnlyVideoBuffersMatter(camera, buffer, packets[1..]);
      } else {
        assert VideoPackets(packets)[0] == p && VideoPackets(packets)[1..] == VideoPackets(packets[1..]);
        var r := Receive(camera, buffer, p);
        OnlyVideoBuffersMatter(r.camera, r.nal, packets[1..]);
      }
    }
  }

  /** A camera that is found to be RTSP fills it like one that is known to be. */
  lemma {:induction false} BuffersAsFromRtsp(camera: Camera, buffer: seq<byte>, packets: seq<seq<byte>>)
    requires NoneToPs(camera, packets)
    requires ReadableRun(camera, buffer, packets) && ReadableRun(RtspCamera, buffer, packets)
    ensures BuffersFit(camera, buffer, packets) <==> BuffersFit(RtspCamera, buffer, packets)
    decreases |packets|
  {
    hide Receive, Readable, IsVideo, FromCamera, Detected, NAL_SIZE;
    if packets != [] {
      var p := packets[0];
      ReceivedAsFromRtsp(camera, buffer, p, CameraPayloads(packets[1..]));
      if IsVideo(p) {
        var r := Receive(camera, buffer, p);
        BuffersAsFromRtsp(r.camera, r.nal, packets[1..]);
      } else {
        BuffersAsFromRtsp(camera, buffer, packets[1..]);
      }
    }
  }

  // ---------- the frame buffer ----------

  /** Every call stays inside its buffers. */
  predicate UnitsFit(v: Video, units: seq<Unit>, freq: int)
    requires NonEmpty(units) && freq > 0
    decreases |units|
  {
    units == []
    || (FitsUnit(v, units[0].nal)
        && var s := VideoHandler(v, units[0], freq);
           s == None || UnitsFit(s.value.video, units[1..], freq))
  }

  /** The frame that is waiting when unit `k` comes, and that unit, fit the frame buffer; an SPS fits its own. */
  predicate FrameFits(units: seq<Unit>, k: nat)
    requires k < |units| && units[k].nal != []
  {
    var front, nal := units[..k], units[k].nal;
    if |FirstSets(front)| < 2 then NalType(nal) == NAL_SPS ==> |nal| <= SPS_SIZE
    else IsSlice(nal) ==> 5 + |Prefixed(Nals(Waiting(Slices(front))))| + 4 + |nal| <= VIDEO_SIZE
  }

  lemma {:induction false} UnitsFitSnoc(v: Video, units: seq<Unit>, u: Unit, freq: int)
    requires NonEmpty(units) && u.nal != [] && freq > 0 && UnitsFit(v, units, freq)
    requires var r := RunUnits(v, units, freq); r.Some? ==> FitsUnit(r.value.0, u.nal)
    ensures NonEmpty(units + [u]) && UnitsFit(v, units + [u], freq)
    decreases |units|
  {
    hide VideoHandler, FitsUnit;
    var all := units + [u];
    if units == [] {
      assert all[1..] == [];
    } else {
      assert all[0] == units[0] && all[1..] == units[1..] + [u];
      var s := VideoHandler(v, units[0], freq);
      if s.Some? {
        UnitsFitSnoc(s.value.video, units[1..], u, freq);
      }
    }
  }

  lemma FitsInStep(v: Video, tags: seq<Tag>, units: seq<Unit>, k: nat)
    requires k < |units| && units[k].nal != [] && InStep(v, tags, units[..k]) && FrameFits(units, k)
    ensures FitsUnit(v, units[k].nal)
  {
    hide Prefixed, FirstSets, Slices, NalsInTags;
  }

  lemma {:induction false} FramesFit(units: seq<Unit>, k: nat, freq: int)
    requires Short(units) && freq > 0 && k <= |units| && forall i :: 0 <= i < |units| ==> FrameFits(units, i)
    ensures NonEmpty(units[..k]) && UnitsFit(NEW_VIDEO, units[..k], freq)
    decreases k
  {
    hide FrameFits, UnitsFit, InStep, RunUnits, FitsUnit;
    if k == 0 {
      NoUnits(freq);
      assert units[..0] == [];
    } else {
      var front, u := units[..k - 1], units[k - 1];
      FramesFit(units, k - 1, freq);
      assert units[..k] == front + [u];
      if RunUnits(NEW_VIDEO, front, freq).Some? {
        CallsInStep(front, freq);
        var r := RunUnits(NEW_VIDEO, front, freq).value;
        assert FrameFits(units, k - 1);
        FitsInStep(r.0, r.1, units, k - 1);
      }
      UnitsFitSnoc(NEW_VIDEO, front, u, freq);
    }
  }

  lemma NoUnits(freq: int)
    requires freq > 0
    ensures NonEmpty([]) && UnitsFit(NEW_VIDEO, [], freq)
  {
  }

  // ---------- runs ----------

  /** Fitting buffers and fitting calls are a fitting run. */
  lemma {:induction false} PartsFit(d: Dump, packets: seq<seq<byte>>, freq: int)
    requires ReadableRun(d.camera, d.nal, packets) && freq > 0 && BuffersFit(d.camera, d.nal, packets)
    requires UnitsFit(d.video, Units(d.camera, d.nal, packets), freq)
    ensures FitsRun(d, packets, freq)
    decreases |packets|
  {
    hide VideoHandler, Handle, Receive, VideoTags, Readable, IsVideo, FitsUnit;
    if packets != [] {
      var p := packets[0];
      PacketIsCall(d, p, freq);
      var next, units := Handle(d, p, freq), Units(d.camera, d.nal, packets);
      if IsVideo(p) && Receive(d.camera, d.nal, p).unit.Some? {
        assert units[0] == Receive(d.camera, d.nal, p).unit.value;
      }
      if next.Some? {
        var rest := Units(next.value.camera, next.value.nal, packets[1..]);
        if IsVideo(p) && Receive(d.camera, d.nal, p).unit.Some? {
          assert units[1..] == rest;
        } else {
          assert units == rest;
        }
        PartsFit(next.value, packets[1..], freq);
      }
    }
  }

  /** Main result: for every packetisation of NAL units of at most 256K whose SPS have at most 128 bytes and whose
      frames have at most 512K, with audio and foreign packets anywhere between, every packet fits the fixed
      buffers. */
  lemma PacketisationsFit(packets: seq<seq<byte>>, ds: seq<Delivery>, units: seq<Unit>, freq: int)
    requires VideoPackets(packets) == AllPackets(ds) && CarriesAll(ds, units) && Short(units) && freq > 0
    requires NoneToPs(Default, packets)
    requires UnitsWithin(units, NAL_SIZE) && forall k :: 0 <= k < |units| ==> FrameFits(units, k)
    ensures ReadableRun(Default, [], packets) && FitsRun(NEW_DUMP, packets, freq)
  {
    hide FitsRun, BuffersFit, UnitsFit, FrameFits, ReadableRun, Units, CarriesAll, VideoPackets, AllPackets, NoneToPs;
    RtspGivesUnits([], ds, units);
    OnlyVideoPacketsMatter(RtspCamera, [], packets);
    UnitsAsFromRtsp(Default, [], packets);
    DeliveriesFit([], ds, units);
    OnlyVideoBuffersMatter(RtspCamera, [], packets);
    BuffersAsFromRtsp(Default, [], packets);
    FramesFit(units, |units|, freq);
    assert units[..|units|] == units;
    PartsFit(NEW_DUMP, packets, freq);
  }

  // ---------- the sizes of the tags ----------

  /** The parameter sets fit their buffers. */
  predicate SmallSets(v: Video) {
    && (v.sps.Some? ==> |v.sps.value| <= SPS_SIZE)
    && (v.pps.Some? ==> |v.pps.value| <= 50)
  }

  lemma HandlerTagFits(v: Video, u: Unit, freq: int)
    requires u.nal != [] && freq > 0 && SmallSets(v) && FitsUnit(v, u.nal)
    ensures var s := VideoHandler(v, u, freq);
            s.Some? ==> SmallSets(s.value.video) && (s.value.tag.Some? ==> |s.value.tag.value.body| <= VIDEO_SIZE)
  {
    hide StampOf, Advance, Signed32, BigEndian;
  }

  lemma PacketTagsFit(d: Dump, p: seq<byte>, freq: int)
    requires Readable(d.camera, d.nal, p) && freq > 0 && FitsPacket(d, p) && |p| < 0x100_0000
    requires SmallSets(d.video) && SizesFit(d.tags)
    ensures var next := Handle(d, p, freq); next.Some? ==> SmallSets(next.value.video) && SizesFit(next.value.tags)
  {
    hide Receive, VideoHandler, Readable, SmallSets, FitsUnit, StampOf, Advance;
    if IsVideo(p) {
      var r := Receive(d.camera, d.nal, p);
      if r.unit.Some? {
        HandlerTagFits(d.video, r.unit.value, freq);
      }
    }
  }

  /** A fitting run writes tags whose sizes fit 24 bits. */
  lemma {:induction false} FittingRunsAreReadable(d: Dump, packets: seq<seq<byte>>, freq: int)
    requires ReadableRun(d.camera, d.nal, packets) && freq > 0 && FitsRun(d, packets, freq)
    requires SmallSets(d.video) && SizesFit(d.tags) && forall i :: 0 <= i < |packets| ==> |packets[i]| < 0x100_0000
    ensures var end := Run(d, packets, freq); end.Some? ==> SizesFit(end.value.tags)
    decreases |packets|
  {
    hide Handle, Receive, Readable, SmallSets, SizesFit, FitsPacket;
    if packets != [] {
      PacketTagsFit(d, packets[0], freq);
      PacketIsCall(d, packets[0], freq);
      var next := Handle(d, packets[0], freq);
      if next.Some? {
        FittingRunsAreReadable(next.value, packets[1..], freq);
      }
    }
  }

  /** Main result, from packets to file without assuming sizes of tags: when units and frames fit the fixed
      buffers, every packet fits them too, and if the run goes on, the file gives exactly the slices received. */
  lemma FittingFileHoldsReceivedSlices(packets: seq<seq<byte>>, ds: seq<Delivery>, units: seq<Unit>, freq: int)
    requires VideoPackets(packets) == AllPackets(ds) && CarriesAll(ds, units) && Short(units) && freq > 0
    requires NoneToPs(Default, packets)
    requires UnitsWithin(units, NAL_SIZE) && forall k :: 0 <= k < |units| ==> FrameFits(units, k)
    requires forall i :: 0 <= i < |packets| ==> |packets[i]| < 0x100_0000
    ensures ReadableRun(Default, [], packets) && FitsRun(NEW_DUMP, packets, freq)
    ensures var end := Run(NEW_DUMP, packets, freq);
            end.Some? ==>
              var read := ReadTags(StreamBytes(end.value.tags));
              read.Some? && NalsInTags(VideoTags(read.value)) == Some(Nals(UpToMarker(Slices(units))))
  {
    hide Run, ReadableRun, FitsRun, NalsInTags, VideoTags, Slices, ReadTags, StreamBytes, VideoPackets, AllPackets;
    hide CarriesAll, Short, FrameFits, UnitsWithin, NoneToPs;
    PacketisationsFit(packets, ds, units, freq);
    FittingRunsAreReadable(NEW_DUMP, packets, freq);
    FileHoldsReceivedSlices(packets, ds, units, freq);
  }
}
