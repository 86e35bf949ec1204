/**
 What a player sees in the dump: the video tags and the audio tags of every run, read as a player reads them, against
 the units and audio packets that came in. Times are those of the clock of RtpClock.
 */
module RtpPlayer {
  import opened Bytes
  import opened Flv
  import opened RawAvc
  import opened RtpClock
  import opened RtpDump
  import opened FlvFile
  import opened RtpFits

  // ---------- video ----------

  /** What a video tag shows: the configuration of the decoder, or the NAL units of a picture. */
  datatype Shown =
    | Config(time: int, config: AvcConfig)
    | Picture(time: int, key: bool, nals: seq<seq<byte>>)

  /** A video tag as a player reads it; None when it cannot. */
  function Show(tag: Tag): Option<Shown> {
    if tag.kind != 9 || ReadVideoBody(tag.body) == None then None
    else
      var b := ReadVideoBody(tag.body).value;
      if b.codec != 7 || b.cts != 0 || (b.frameType != 1 && b.frameType != 2) then None
      else if b.packetType == 0 && b.frameType == 1 then
        var config := ReadSequenceHeader(b.data);
        if config == None then None else Some(Config(tag.time, config.value))
      else if b.packetType == 1 then
        var nals := ReadPrefixed(b.data);
        if nals == None then None else Some(Picture(tag.time, b.frameType == 1, nals.value))
      else None
  }

  function ShowAll(tags: seq<Tag>): Option<seq<Shown>> {
    if tags == [] then Some([])
    else
      var front, last := ShowAll(tags[..|tags| - 1]), Show(tags[|tags| - 1]);
      if front == None || last == None then None else Some(front.value + [last.value])
  }

  /** The SPS and the PPS of a good pair. */
  function SpsOf(sets: seq<seq<byte>>): (sps: seq<byte>)
    requires |sets| == 2
  {
    if NalType2(sets[0]) == 7 then sets[0] else sets[1]
  }

  function PpsOf(sets: seq<seq<byte>>): (pps: seq<byte>)
    requires |sets| == 2
  {
    if NalType2(sets[0]) == 7 then sets[1] else sets[0]
  }

  /** The configuration: profile and level of the received SPS, four-byte lengths, that SPS, and the received PPS, of
      which a long one is reduced to four bytes. */
  function ConfigOf(sets: seq<seq<byte>>): AvcConfig
    requires |sets| == 2 && GoodPair(sets)
  {
    var sps, pps := SpsOf(sets), PpsOf(sets);
    AvcConfig(sps[1], sps[3], 3, sps, if |pps| <= 50 then pps else pps[..4])
  }

  /** The time of the last call. */
  function LastTime(units: seq<Unit>, freq: int): int
    requires units != [] && freq > 0
  {
    Signed32(Stamps(NEW_CLOCK, Times(units), freq)[|units| - 1])
  }

  /** What a run should show: the configuration when the second parameter set comes, then a picture at every slice
      with a marker, a key picture when that is an IDR slice, with all slices since the last one. */
  function Expected(units: seq<Unit>, freq: int): seq<Shown>
    requires freq > 0
  {
    if units == [] then []
    else
      var front, u := units[..|units| - 1], units[|units| - 1];
      var sets := FirstSets(front);
      if |sets| == 1 && IsParameterSet(u.nal) then
        if GoodPair(sets + [u.nal]) then Expected(front, freq) + [Config(LastTime(units, freq), ConfigOf(sets + [u.nal]))]
        else Expected(front, freq)
      else if |sets| == 2 && IsSlice(u.nal) && u.marker then
        Expected(front, freq)
        + [Picture(LastTime(units, freq), u.nal[0] % 32 == 5, Nals(Waiting(Slices(front)) + [u]))]
      else Expected(front, freq)
  }

  lemma ShowAllSnoc(tags: seq<Tag>, tag: Tag)
    ensures ShowAll(tags + [tag])
            == if ShowAll(tags) == None || Show(tag) == None then None else Some(ShowAll(tags).value + [Show(tag).value])
  {
    hide Show;
    assert (tags + [tag])[..|tags|] == tags;
  }

  // ---------- the clock of a run ----------

  /** The clock after a run of times. */
  function ClockAfter(c: Clock, times: seq<int>, freq: int): Clock
    decreases |times|
  {
    if times == [] then c else ClockAfter(Advance(c, times[0], freq), times[1..], freq)
  }

  lemma {:induction false} ClockSnoc(c: Clock, times: seq<int>, t: int, freq: int)
    requires freq > 0
    ensures ClockAfter(c, times + [t], freq) == Advance(ClockAfter(c, times, freq), t, freq)
    ensures Stamps(c, times + [t], freq) == Stamps(c, times, freq) + [StampOf(ClockAfter(c, times, freq), t, freq)]
    decreases |times|
  {
    hide Advance, StampOf;
    var all := times + [t];
    if times == [] {
      assert all[0] == t && all[1..] == [];
      assert Stamps(Advance(c, t, freq), [], freq) == [];
    } else {
      assert all[0] == times[0] && all[1..] == times[1..] + [t];
      ClockSnoc(Advance(c, times[0], freq), times[1..], t, freq);
    }
  }

  // ---------- one call ----------

  /** What holds after each run of calls: the clock, and the parameter sets that came. */
  predicate Knows(v: Video, units: seq<Unit>, freq: int) {
    var sets := FirstSets(units);
    && v.clock == ClockAfter(NEW_CLOCK, Times(units), freq)
    && v.count == |sets|
    && (|sets| == 0 ==> v.sps == None && v.pps == None)
    && (|sets| == 1 ==>
          && v.sps == (if NalType2(sets[0]) == 7 then Some(sets[0]) else None)
          && v.pps == (if NalType2(sets[0]) == 8 then Some(Short50(sets[0])) else None))
  }

  /** The source keeps a PPS of up to 50 bytes, and four bytes of a longer one. */
  function Short50(pps: seq<byte>): seq<byte> { if |pps| <= 50 then pps else pps[..4] }

  /** The call that completes the parameter sets. */
  lemma SecondSet(v: Video, first: seq<byte>, u: Unit, freq: int)
    requires freq > 0 && u.nal != [] && first != [] && v.count == 1
    requires IsParameterSet(first) && IsParameterSet(u.nal)
    requires v.sps == (if NalType2(first) == 7 then Some(first) else None)
    requires v.pps == (if NalType2(first) == 8 then Some(Short50(first)) else None)
    ensures var s, sets := VideoHandler(v, u, freq), [first, u.nal];
            && (s.Some? <==> GoodPair(sets))
            && (GoodPair(sets) ==> |SpsOf(sets)| >= 4 && PpsOf(sets) != [])
            && (s.Some? ==>
                  s.value.tag == Some(Tag(TAG_VIDEO, Signed32(StampOf(v.clock, u.time, freq)),
                                          HEADER_TAG + SequenceHeader(SpsOf(sets), Short50(PpsOf(sets))))))
  {
    hide StampOf, Advance, Signed32, SequenceHeader;
  }

  /** A header tag shows its parameter sets, when a positive int16_t holds their sizes. */
  lemma HeaderShows(time: int, sps: seq<byte>, pps: seq<byte>)
    requires |sps| >= 4 && 0 < |pps| <= 50
    ensures var shown := Show(Tag(TAG_VIDEO, time, HEADER_TAG + SequenceHeader(sps, pps)));
            (shown == Some(Config(time, AvcConfig(sps[1], sps[3], 3, sps, pps))) <==> |sps| < 0x8000)
  {
    SequenceHeaderRoundTrip(sps, pps);
    HeaderBody(SequenceHeader(sps, pps));
    hide ReadVideoBody, SequenceHeader, ReadSequenceHeader;
  }

  lemma HeaderBody(data: seq<byte>)
    ensures ReadVideoBody(HEADER_TAG + data) == Some(VideoBody(1, 7, 0, 0, data))
  {
    hide ReadVideoBody;
    BodyOf(0x17, 0, data);
  }

  /** A tag of slices shows a picture with them. */
  lemma SlicesShow(time: int, nal: seq<byte>, nals: seq<seq<byte>>)
    requires nal != [] && Lengths32(nals)
    ensures Show(Tag(TAG_VIDEO, time, NaluTag(nal) + Prefixed(nals))) == Some(Picture(time, nal[0] % 32 == 5, nals))
  {
    PrefixedRoundTrip(nals);
    SlicesBody(nal, Prefixed(nals));
    hide ReadVideoBody, Prefixed, ReadPrefixed;
  }

  lemma SlicesBody(nal: seq<byte>, data: seq<byte>)
    requires nal != []
    ensures ReadVideoBody(NaluTag(nal) + data) == Some(VideoBody(if nal[0] % 32 == 5 then 1 else 2, 7, 1, 0, data))
  {
    hide ReadVideoBody;
    if NalType(nal) == NAL_IDR {
      BodyOf(0x17, 1, data);
    } else {
      BodyOf(0x27, 1, data);
    }
  }

  lemma BodyOf(first: byte, packetType: byte, data: seq<byte>)
    ensures ReadVideoBody([first, packetType, 0, 0, 0] + data)
            == Some(VideoBody(first / 16, first % 16, packetType, 0, data))
  {
    hide Be24, Signed24;
    var d := [first, packetType, 0, 0, 0] + data;
    assert d[5..] == data;
    NoCompositionTime();
  }

  lemma NoCompositionTime()
    ensures Signed24(Be24(0, 0, 0)) == 0
  {
  }

  /** Calls that write nothing. */
  lemma NoTag(v: Video, u: Unit, freq: int)
    requires freq > 0 && u.nal != [] && 0 <= v.count <= 2 && VideoHandler(v, u, freq).Some?
    requires !(v.count == 1 && IsParameterSet(u.nal)) && !(v.count == 2 && IsSlice(u.nal) && u.marker)
    ensures VideoHandler(v, u, freq).value.tag == None
  {
    hide StampOf, Advance, Signed32, SequenceHeader, LengthPrefixed, NaluTag;
  }

  /** How a call changes the parameter sets that are kept. */
  lemma KeepsSet(v: Video, sets: seq<seq<byte>>, u: Unit, freq: int)
    requires freq > 0 && u.nal != [] && v.count == |sets| <= 2 && VideoHandler(v, u, freq).Some?
    requires |sets| == 0 ==> v.sps == None && v.pps == None
    ensures var s := VideoHandler(v, u, freq).value.video;
            var sets' := if |sets| < 2 && IsParameterSet(u.nal) then sets + [u.nal] else sets;
            && s.count == |sets'|
            && (|sets'| == 1 && |sets| == 0 ==>
                  && s.sps == (if NalType2(u.nal) == 7 then Some(u.nal) else None)
                  && s.pps == (if NalType2(u.nal) == 8 then Some(Short50(u.nal)) else None))
            && (|sets'| == |sets| < 2 ==> s.sps == v.sps && s.pps == v.pps)
  {
    hide StampOf, Advance, Signed32, SequenceHeader, LengthPrefixed, NaluTag;
  }

  lemma TimesSnoc(units: seq<Unit>, u: Unit)
    ensures Times(units + [u]) == Times(units) + [u.time]
  {
  }

  lemma CallKnows(v: Video, units: seq<Unit>, u: Unit, freq: int)
    requires Knows(v, units, freq) && u.nal != [] && freq > 0 && VideoHandler(v, u, freq).Some?
    ensures Knows(VideoHandler(v, u, freq).value.video, units + [u], freq)
    ensures LastTime(units + [u], freq) == Signed32(StampOf(v.clock, u.time, freq))
  {
    TimesSnoc(units, u);
    ClockSnoc(NEW_CLOCK, Times(units), u.time, freq);
    VideoHandlerTime(v, u, freq);
    SlicesSnoc(units, u);
    KeepsSet(v, FirstSets(units), u, freq);
    hide VideoHandler, StampOf, Advance, Signed32, FirstSets, ClockAfter, Stamps, Times, IsParameterSet, NalType2;
    assert (units + [u])[|units|] == u;
  }

  /** The decoder can take the SPS. */
  predicate SpsFits(units: seq<Unit>) {
    var sets := FirstSets(units); |sets| == 2 ==> |SpsOf(sets)| < 0x8000
  }

  /** What the tags show is what should be shown, exactly when the SPS fits. */
  predicate Agrees(tags: seq<Tag>, units: seq<Unit>, freq: int)
    requires freq > 0
  {
    ShowAll(tags) == Some(Expected(units, freq)) <==> SpsFits(units)
  }

  lemma ExpectedSnoc(units: seq<Unit>, u: Unit, freq: int)
    requires freq > 0
    ensures var sets, all := FirstSets(units), units + [u];
            Expected(all, freq)
            == if |sets| == 1 && IsParameterSet(u.nal) then
                 if GoodPair(sets + [u.nal]) then
                   Expected(units, freq) + [Config(LastTime(all, freq), ConfigOf(sets + [u.nal]))]
                 else Expected(units, freq)
               else if |sets| == 2 && IsSlice(u.nal) && u.marker then
                 Expected(units, freq)
                 + [Picture(LastTime(all, freq), u.nal[0] % 32 == 5, Nals(Waiting(Slices(units)) + [u]))]
               else Expected(units, freq)
  {
    hide FirstSets, LastTime, Slices, GoodPair;
    assert (units + [u])[..|units|] == units;
  }

  // ---------- every run ----------

  lemma ShownMore(tags: seq<Tag>, tag: Tag, expected: seq<Shown>, shown: Shown)
    ensures ShowAll(tags + [tag]) == Some(expected + [shown])
            <==> ShowAll(tags) == Some(expected) && Show(tag) == Some(shown)
  {
    hide Show, ShowAll;
    ShowAllSnoc(tags, tag);
    if ShowAll(tags).Some? && Show(tag).Some? {
      var a, b := ShowAll(tags).value + [Show(tag).value], expected + [shown];
      if a == b {
        assert a[..|a| - 1] == ShowAll(tags).value && b[..|b| - 1] == expected;
        assert a[|a| - 1] == Show(tag).value && b[|b| - 1] == shown;
      }
    }
  }

  lemma ConfigAgrees(v: Video, tags: seq<Tag>, units: seq<Unit>, u: Unit, freq: int)
    requires freq > 0 && Knows(v, units, freq) && Agrees(tags, units, freq) && u.nal != []
    requires VideoHandler(v, u, freq).Some? && |FirstSets(units)| == 1 && IsParameterSet(u.nal)
    ensures Agrees(tags + RtpDump.Listed(VideoHandler(v, u, freq).value.tag), units + [u], freq)
  {
    hide VideoHandler, StampOf, Stamps, ClockAfter, Show, ShowAll, Expected, SequenceHeader, FirstSets, LastTime;
    var sets := FirstSets(units);
    var all := sets + [u.nal];
    assert sets == [sets[0]] && all == [sets[0], u.nal];
    CallKnows(v, units, u, freq);
    SecondSet(v, sets[0], u, freq);
    SlicesSnoc(units, u);
    ExpectedSnoc(units, u, freq);
    var tag := VideoHandler(v, u, freq).value.tag.value;
    HeaderShows(tag.time, SpsOf(all), Short50(PpsOf(all)));
    ShownMore(tags, tag, Expected(units, freq), Config(LastTime(units + [u], freq), ConfigOf(all)));
  }

  lemma PictureAgrees(v: Video, tags: seq<Tag>, units: seq<Unit>, u: Unit, freq: int)
    requires freq > 0 && Knows(v, units, freq) && Agrees(tags, units, freq)
    requires Short(units) && 0 < |u.nal| < 0x1_0000_0000 && v.pending == Prefixed(Nals(Waiting(Slices(units))))
    requires |FirstSets(units)| == 2 && IsSlice(u.nal) && u.marker
    ensures VideoHandler(v, u, freq).Some?
    ensures Agrees(tags + RtpDump.Listed(VideoHandler(v, u, freq).value.tag), units + [u], freq)
  {
    hide VideoHandler, StampOf, Stamps, ClockAfter, Show, ShowAll, Expected, FirstSets, LastTime, Slices, Prefixed,
         LengthPrefixed, UpToMarker, NaluTag;
    SliceCall(v, u, freq);
    CallKnows(v, units, u, freq);
    SlicesSnoc(units, u);
    ExpectedSnoc(units, u, freq);
    var w := Waiting(Slices(units));
    WaitingAreShort(units, u);
    NalsSnoc(w, u);
    PrefixedSnoc(Nals(w), u.nal);
    var tag := VideoHandler(v, u, freq).value.tag.value;
    SlicesShow(tag.time, u.nal, Nals(w + [u]));
    ShownMore(tags, tag, Expected(units, freq), Picture(LastTime(units + [u], freq), u.nal[0] % 32 == 5, Nals(w + [u])));
  }

  lemma WaitingAreShort(units: seq<Unit>, u: Unit)
    requires Short(units) && 0 < |u.nal| < 0x1_0000_0000
    ensures Lengths32(Nals(Waiting(Slices(units)) + [u]))
  {
    hide *;
    SlicesAreUnits(units);
    WaitingLengths(Slices(units), u);
  }

  lemma WaitingLengths(slices: seq<Unit>, u: Unit)
    requires Lengths32(Nals(slices)) && |u.nal| < 0x1_0000_0000
    ensures Lengths32(Nals(Waiting(slices) + [u]))
  {
    hide UpToMarker, Slices;
    var k, more := |UpToMarker(slices)|, Waiting(slices) + [u];
    forall i | 0 <= i < |more|
      ensures |Nals(more)[i]| < 0x1_0000_0000
    {
      if k + i < |slices| {
        assert more[i] == slices[k + i] && |Nals(slices)[k + i]| < 0x1_0000_0000;
      }
    }
  }

  lemma NothingAgrees(v: Video, tags: seq<Tag>, units: seq<Unit>, u: Unit, freq: int)
    requires freq > 0 && Knows(v, units, freq) && Agrees(tags, units, freq) && u.nal != []
    requires VideoHandler(v, u, freq).Some?
    requires !(|FirstSets(units)| == 1 && IsParameterSet(u.nal)) && !(|FirstSets(units)| == 2 && IsSlice(u.nal) && u.marker)
    ensures Agrees(tags + RtpDump.Listed(VideoHandler(v, u, freq).value.tag), units + [u], freq)
  {
    hide VideoHandler, StampOf, ClockAfter, Show, ShowAll, Expected, FirstSets, LastTime, Slices, IsSlice, IsParameterSet;
    NoTag(v, u, freq);
    SlicesSnoc(units, u);
    ExpectedSnoc(units, u, freq);
    assert tags + [] == tags;
  }

  lemma {:induction false} RunAgrees(units: seq<Unit>, freq: int)
    requires Short(units) && freq > 0 && RunUnits(NEW_VIDEO, units, freq).Some?
    ensures var r := RunUnits(NEW_VIDEO, units, freq).value; Knows(r.0, units, freq) && Agrees(r.1, units, freq)
    decreases |units|
  {
    hide VideoHandler, Knows, Agrees, RunUnits, InStep, FirstSets, IsSlice, IsParameterSet;
    if units == [] {
      NothingRun(freq);
    } else {
      var front, u := units[..|units| - 1], units[|units| - 1];
      assert front + [u] == units;
      ShortFront(units);
      RunUnitsSnoc(NEW_VIDEO, front, u, freq);
      RunAgrees(front, freq);
      CallsInStep(front, freq);
      var r := RunUnits(NEW_VIDEO, front, freq).value;
      CallKnows(r.0, front, u, freq);
      if |FirstSets(front)| == 1 && IsParameterSet(u.nal) {
        ConfigAgrees(r.0, r.1, front, u, freq);
      } else if |FirstSets(front)| == 2 && IsSlice(u.nal) && u.marker {
        InStepPending(r.0, r.1, front);
        PictureAgrees(r.0, r.1, front, u, freq);
      } else {
        NothingAgrees(r.0, r.1, front, u, freq);
      }
    }
  }

  lemma InStepPending(v: Video, tags: seq<Tag>, units: seq<Unit>)
    requires InStep(v, tags, units)
    ensures v.pending == Prefixed(Nals(Waiting(Slices(units))))
  {
  }

  lemma NothingRun(freq: int)
    requires freq > 0
    ensures RunUnits(NEW_VIDEO, [], freq) == Some((NEW_VIDEO, [])) && Knows(NEW_VIDEO, [], freq) && Agrees([], [], freq)
  {
  }

  /** Main result: for every packetisation whose run goes on, the video tags are exactly what should be shown, read
      with their times, configuration, key frames and NAL units, if and only if a positive int16_t holds the size of
      the SPS. */
  lemma PlayerSeesTheVideo(packets: seq<seq<byte>>, ds: seq<Delivery>, units: seq<Unit>, freq: int)
    requires VideoPackets(packets) == AllPackets(ds) && CarriesAll(ds, units) && Short(units) && freq > 0
    requires NoneToPs(Default, packets)
    ensures ReadableRun(Default, [], packets)
    ensures var end := Run(NEW_DUMP, packets, freq);
            end.Some? ==> (ShowAll(VideoTags(end.value.tags)) == Some(Expected(units, freq)) <==> SpsFits(units))
  {
    hide Run, RunUnits, ReadableRun, Units, AllPackets, VideoPackets, NoneToPs, ShowAll, Expected, SpsFits, Knows;
    RtspGivesUnits([], ds, units);
    OnlyVideoPacketsMatter(RtspCamera, [], packets);
    UnitsAsFromRtsp(Default, [], packets);
    RunIsUnits(NEW_DUMP, packets, freq);
    if Run(NEW_DUMP, packets, freq).Some? {
      assert VideoTags([]) + RunUnits(NEW_VIDEO, units, freq).value.1 == RunUnits(NEW_VIDEO, units, freq).value.1;
      RunAgrees(units, freq);
    }
  }

  // ---------- the video in the file ----------

  /** The file keeps 31 bits of a time. */
  function OnFile(shown: seq<Shown>): (r: seq<Shown>)
    ensures |r| == |shown|
  {
    seq(|shown|, i requires 0 <= i < |shown| => shown[i].(time := shown[i].time % 0x8000_0000))
  }

  lemma StoredShows(tag: Tag)
    requires tag.kind == TAG_VIDEO
    ensures Show(StoredTag(tag))
            == if Show(tag) == None then None else Some(Show(tag).value.(time := tag.time % 0x8000_0000))
    ensures Show(tag).Some? ==> Show(tag).value.time == tag.time
  {
    hide ReadVideoBody, ReadSequenceHeader, ReadPrefixed;
  }

  lemma {:induction false} StoredShowsAll(tags: seq<Tag>)
    requires MediaKinds(tags)
    ensures ShowAll(VideoTags(Stored(tags)))
            == if ShowAll(VideoTags(tags)) == None then None else Some(OnFile(ShowAll(VideoTags(tags)).value))
    decreases |tags|
  {
    hide Show, ShowAll, Stored, StoredTag, VideoTags, MediaKinds;
    if tags == [] {
      NothingStored();
      NothingShown();
    } else {
      var front, last := tags[..|tags| - 1], tags[|tags| - 1];
      assert front + [last] == tags;
      StoredSnoc(front, last);
      StoredShowsAll(front);
      VideoTagsSnoc(front, last);
      VideoTagsSnoc(Stored(front), StoredTag(last));
      if last.kind == TAG_VIDEO {
        StoredShows(last);
        ShowAllSnoc(VideoTags(front), last);
        ShowAllSnoc(VideoTags(Stored(front)), StoredTag(last));
        if ShowAll(VideoTags(front)).Some? && Show(last).Some? {
          var a := ShowAll(VideoTags(front)).value;
          assert OnFile(a + [Show(last).value]) == OnFile(a) + [Show(last).value.(time := last.time % 0x8000_0000)];
        }
      }
    }
  }

  lemma NothingShown()
    ensures VideoTags([]) == [] && ShowAll([]) == Some([]) && OnFile([]) == []
  {
  }

  lemma {:induction false} SetsAreSmall(units: seq<Unit>, k: nat)
    requires NonEmpty(units) && k <= |units| && forall i :: 0 <= i < |units| ==> FrameFits(units, i)
    ensures var sets := FirstSets(units[..k]);
            forall i :: 0 <= i < |sets| && NalType2(sets[i]) == 7 ==> |sets[i]| <= SPS_SIZE
    decreases k
  {
    hide Prefixed, Slices, UpToMarker;
    if k > 0 {
      SetsAreSmall(units, k - 1);
      assert FrameFits(units, k - 1);
      assert units[..k] == units[..k - 1] + [units[k - 1]];
      SlicesSnoc(units[..k - 1], units[k - 1]);
    }
  }

  /** Main result, from packets to file: when units and frames fit the fixed buffers and the run goes on, the file shows
      exactly what it should. */
  lemma PlayerReadsTheFile(packets: seq<seq<byte>>, ds: seq<Delivery>, units: seq<Unit>, freq: int)
    requires VideoPackets(packets) == AllPackets(ds) && CarriesAll(ds, units) && Short(units) && freq > 0
    requires NoneToPs(Default, packets)
    requires UnitsWithin(units, NAL_SIZE) && forall k :: 0 <= k < |units| ==> FrameFits(units, k)
    requires forall i :: 0 <= i < |packets| ==> |packets[i]| < 0x100_0000
    ensures ReadableRun(Default, [], packets)
    ensures var end := Run(NEW_DUMP, packets, freq);
            end.Some? ==>
              var read := ReadTags(StreamBytes(end.value.tags));
              read.Some? && ShowAll(VideoTags(read.value)) == Some(OnFile(Expected(units, freq)))
  {
    hide Run, ReadableRun, FitsRun, VideoTags, Slices, ReadTags, StreamBytes, VideoPackets, AllPackets, ShowAll;
    hide CarriesAll, UnitsWithin, FrameFits, NoneToPs, Expected, OnFile, FirstSets, GoodPair;
    PacketisationsFit(packets, ds, units, freq);
    FittingRunsAreReadable(NEW_DUMP, packets, freq);
    RunKinds(NEW_DUMP, packets, freq);
    PlayerSeesTheVideo(packets, ds, units, freq);
    WrittenNalsAreReceivedSlices(packets, ds, units, freq);
    var end := Run(NEW_DUMP, packets, freq);
    if end.Some? {
      SetsAreSmall(units, |units|);
      assert units[..|units|] == units;
      SmallSpsFits(units);
      ReadsWrittenTags(end.value.tags);
      StoredShowsAll(end.value.tags);
    }
  }

  lemma SmallSpsFits(units: seq<Unit>)
    requires var sets := FirstSets(units);
             (|sets| == 2 ==> GoodPair(sets)) && forall i :: 0 <= i < |sets| && NalType2(sets[i]) == 7 ==> |sets[i]| <= SPS_SIZE
    ensures SpsFits(units)
  {
    hide FirstSets;
  }

  // ---------- audio ----------

  /** What an audio tag holds: sound format, the rate, size and type bits, and the sound. */
  datatype Sound = Sound(time: int, format: int, low: int, data: seq<byte>)

  function Hear(tag: Tag): Option<Sound> {
    if tag.kind != 8 || tag.body == [] then None
    else Some(Sound(tag.time, tag.body[0] / 16, tag.body[0] % 16, tag.body[1..]))
  }

  function AudioTags(tags: seq<Tag>): seq<Tag> {
    if tags == [] then []
    else AudioTags(tags[..|tags| - 1]) + (if tags[|tags| - 1].kind == 8 then [tags[|tags| - 1]] else [])
  }

  function HearAll(tags: seq<Tag>): Option<seq<Sound>> {
    if tags == [] then Some([])
    else
      var front, last := HearAll(tags[..|tags| - 1]), Hear(tags[|tags| - 1]);
      if front == None || last == None then None else Some(front.value + [last.value])
  }

  /** The audio packets that come when a video unit has come (`begun`). */
  function Heard(camera: Camera, nal: seq<byte>, begun: bool, packets: seq<seq<byte>>): (r: seq<seq<byte>>)
    requires ReadableRun(camera, nal, packets)
    ensures forall i :: 0 <= i < |r| ==> IsAudio(r[i])
    decreases |packets|
  {
    if packets == [] then []
    else
      var p, rest := packets[0], packets[1..];
      if IsVideo(p) then
        var r := Receive(camera, nal, p);
        Heard(r.camera, r.nal, begun || r.unit.Some?, rest)
      else (if IsAudio(p) && begun then [p] else []) + Heard(camera, nal, begun, rest)
  }

  /** Their RTP times. */
  function SoundTimes(heard: seq<seq<byte>>): (r: seq<int>)
    requires forall i :: 0 <= i < |heard| ==> IsAudio(heard[i])
    ensures |r| == |heard|
  {
    seq(|heard|, i requires 0 <= i < |heard| => assert IsAudio(heard[i]); TimeOf(heard[i]))
  }

  /** What should be heard: every one more than a millisecond behind the start, A-law for payload type 8 and mu-law
      for 0 (formats 7 and 8), 16 bits and one channel, and its payload. */
  function Sounds(heard: seq<seq<byte>>, stamps: seq<int>): (r: seq<Sound>)
    requires |heard| == |stamps| && forall i :: 0 <= i < |heard| ==> IsAudio(heard[i])
  {
    if heard == [] then []
    else
      var p := heard[0];
      assert IsAudio(p);
      (if stamps[0] > 1 then [Sound(Signed32(stamps[0]), if PayloadType(p) == 8 then 7 else 8, 2, p[12..])] else [])
      + Sounds(heard[1..], stamps[1..])
  }

  lemma HearAllAppend(tags: seq<Tag>, tag: Option<Tag>)
    requires tag.Some? ==> Hear(tag.value).Some?
    ensures HearAll(tags + RtpDump.Listed(tag))
            == if HearAll(tags) == None then None
               else Some(HearAll(tags).value + if tag.Some? then [Hear(tag.value).value] else [])
  {
    hide Hear;
    if tag == None {
      assert tags + [] == tags;
      if HearAll(tags).Some? { assert HearAll(tags).value + [] == HearAll(tags).value; }
    } else {
      assert (tags + [tag.value])[..|tags|] == tags;
    }
  }

  lemma AudioTagsAppend(tags: seq<Tag>, tag: Option<Tag>)
    ensures AudioTags(tags + RtpDump.Listed(tag))
            == AudioTags(tags) + RtpDump.Listed(if tag.Some? && tag.value.kind == 8 then tag else None)
  {
    if tag == None {
      assert tags + [] == tags && AudioTags(tags) + [] == AudioTags(tags);
    } else {
      assert (tags + [tag.value])[..|tags|] == tags;
    }
  }

  /** The tag of an audio packet, if it has one. */
  function SoundTag(c: Clock, p: seq<byte>): Option<Tag>
    requires IsAudio(p)
  {
    AudioHandler(c, p[12..], TimeOf(p), PayloadType(p) == 8).1
  }

  lemma SoundTagHeard(c: Clock, p: seq<byte>)
    requires IsAudio(p)
    ensures AudioHandler(c, p[12..], TimeOf(p), PayloadType(p) == 8).0 == Advance(c, TimeOf(p), 8)
    ensures SoundTag(c, p).Some? <==> StampOf(c, TimeOf(p), 8) > 1
    ensures SoundTag(c, p).Some? ==>
              && SoundTag(c, p).value.kind == 8
              && Hear(SoundTag(c, p).value)
                 == Some(Sound(Signed32(StampOf(c, TimeOf(p), 8)), if PayloadType(p) == 8 then 7 else 8, 2, p[12..]))
  {
    hide StampOf, Advance, Signed32, TimeOf;
  }

  /** What a packet does to the audio. */
  lemma PacketSounds(d: Dump, p: seq<byte>, freq: int)
    requires Readable(d.camera, d.nal, p) && freq > 0
    ensures var next, begun := Handle(d, p, freq), d.videoBegin;
            next.Some? ==>
              if IsVideo(p) then
                && next.value.audio == d.audio && AudioTags(next.value.tags) == AudioTags(d.tags)
                && next.value.videoBegin == (begun || Receive(d.camera, d.nal, p).unit.Some?)
              else
                && next.value.videoBegin == begun
                && (if IsAudio(p) && begun then
                      next.value.audio == Advance(d.audio, TimeOf(p), 8)
                      && AudioTags(next.value.tags) == AudioTags(d.tags) + RtpDump.Listed(SoundTag(d.audio, p))
                    else next.value.audio == d.audio && AudioTags(next.value.tags) == AudioTags(d.tags))
  {
    hide VideoHandler, Receive, AudioTags, Readable, StampOf, Advance;
    assert AudioTags(d.tags) + [] == AudioTags(d.tags);
    if IsVideo(p) {
      ReceivedByPs(d.camera, d.nal, p);
      var r := Receive(d.camera, d.nal, p);
      if r.unit.Some? {
        var step := VideoHandler(d.video, r.unit.value, freq);
        VideoHandlerKind(d.video, r.unit.value, freq);
        if step.Some? {
          AudioTagsAppend(d.tags, step.value.tag);
        }
      }
    } else if IsAudio(p) && d.videoBegin {
      SoundTagHeard(d.audio, p);
      AudioTagsAppend(d.tags, SoundTag(d.audio, p));
    }
  }

  lemma SoundsCons(c: Clock, p: seq<byte>, heard: seq<seq<byte>>)
    requires IsAudio(p) && forall i :: 0 <= i < |heard| ==> IsAudio(heard[i])
    ensures var all := [p] + heard;
            && (forall i :: 0 <= i < |all| ==> IsAudio(all[i]))
            && Sounds(all, Stamps(c, SoundTimes(all), 8))
               == (if SoundTag(c, p).Some? && Hear(SoundTag(c, p).value).Some? then [Hear(SoundTag(c, p).value).value] else [])
                  + Sounds(heard, Stamps(Advance(c, TimeOf(p), 8), SoundTimes(heard), 8))
  {
    hide IsAudio, SoundTag, Hear, StampOf, Advance, TimeOf, PayloadType, Signed32;
    SoundTagHeard(c, p);
    var all := [p] + heard;
    assert all[0] == p && all[1..] == heard;
    assert SoundTimes(all)[0] == TimeOf(p) && SoundTimes(all)[1..] == SoundTimes(heard);
    var stamps := Stamps(c, SoundTimes(all), 8);
    assert stamps[0] == StampOf(c, TimeOf(p), 8);
    assert stamps[1..] == Stamps(Advance(c, TimeOf(p), 8), SoundTimes(heard), 8);
  }

  lemma SoundsJoin(a: seq<Sound>, b: seq<Sound>, c: seq<Sound>)
    ensures (a + b) + c == a + (b + c) && a + [] == a && [] + a == a
  {
  }

  lemma NothingHeard(c: Clock)
    ensures Sounds([], Stamps(c, SoundTimes([]), 8)) == []
  {
  }

  /** What one packet puts in front of the sounds of the rest. */
  lemma OneSound(d: Dump, packets: seq<seq<byte>>, freq: int)
    requires packets != [] && ReadableRun(d.camera, d.nal, packets) && freq > 0 && HearAll(AudioTags(d.tags)).Some?
    requires Handle(d, packets[0], freq).Some?
    ensures var next := Handle(d, packets[0], freq).value;
            && ReadableRun(next.camera, next.nal, packets[1..]) && HearAll(AudioTags(next.tags)).Some?
            && var heard := Heard(d.camera, d.nal, d.videoBegin, packets);
               var rest := Heard(next.camera, next.nal, next.videoBegin, packets[1..]);
               HearAll(AudioTags(d.tags)).value + Sounds(heard, Stamps(d.audio, SoundTimes(heard), 8))
               == HearAll(AudioTags(next.tags)).value + Sounds(rest, Stamps(next.audio, SoundTimes(rest), 8))
  {
    var p, next := packets[0], Handle(d, packets[0], freq).value;
    hide Handle, Receive, Readable, IsVideo, IsAudio, AudioTags, HearAll, Hear, SoundTag, Advance, TimeOf, Sounds, Stamps,
         SoundTimes;
    NotBothKinds(p);
    PacketSounds(d, p, freq);
    PacketIsCall(d, p, freq);
    var rest := Heard(next.camera, next.nal, next.videoBegin, packets[1..]);
    var before := HearAll(AudioTags(d.tags)).value;
    if !IsVideo(p) && IsAudio(p) && d.videoBegin {
      SoundTagHeard(d.audio, p);
      SoundsCons(d.audio, p, rest);
      HearAllAppend(AudioTags(d.tags), SoundTag(d.audio, p));
      SoundsJoin(before, if SoundTag(d.audio, p).Some? then [Hear(SoundTag(d.audio, p).value).value] else [],
                 Sounds(rest, Stamps(next.audio, SoundTimes(rest), 8)));
    } else {
      assert Heard(d.camera, d.nal, d.videoBegin, packets) == rest;
    }
  }

  lemma NotBothKinds(p: seq<byte>)
    ensures !(IsVideo(p) && IsAudio(p))
  {
  }

  lemma {:induction false} RunSounds(d: Dump, packets: seq<seq<byte>>, freq: int)
    requires ReadableRun(d.camera, d.nal, packets) && freq > 0 && HearAll(AudioTags(d.tags)).Some?
    ensures var end, heard := Run(d, packets, freq), Heard(d.camera, d.nal, d.videoBegin, packets);
            end.Some? ==>
              HearAll(AudioTags(end.value.tags))
              == Some(HearAll(AudioTags(d.tags)).value + Sounds(heard, Stamps(d.audio, SoundTimes(heard), 8)))
    decreases |packets|
  {
    hide Handle, Receive, Readable, IsVideo, IsAudio, AudioTags, HearAll, Sounds, Stamps, SoundTimes;
    if packets == [] {
      NothingHeard(d.audio);
      SoundsJoin(HearAll(AudioTags(d.tags)).value, [], []);
    } else {
      var next := Handle(d, packets[0], freq);
      if next.Some? {
        OneSound(d, packets, freq);

        RunSounds(next.value, packets[1..], freq);
      }
    }
  }

  /** Main result: for every run, the audio tags are, in order, one for each audio packet behind the first video unit
      that is more than a millisecond behind the start of its clock, with its time, its format by payload type, and
      its payload. */
  lemma PlayerHearsTheAudio(packets: seq<seq<byte>>, freq: int)
    requires ReadableRun(Default, [], packets) && freq > 0
    ensures var end, heard := Run(NEW_DUMP, packets, freq), Heard(Default, [], false, packets);
            end.Some? ==>
              HearAll(AudioTags(end.value.tags)) == Some(Sounds(heard, Stamps(NEW_CLOCK, SoundTimes(heard), 8)))
  {
    NothingYet();
    hide Run, Heard, AudioTags, HearAll, Sounds, Stamps, SoundTimes, ReadableRun;
    RunSounds(NEW_DUMP, packets, freq);
    var heard := Heard(Default, [], false, packets);
    SoundsJoin(Sounds(heard, Stamps(NEW_CLOCK, SoundTimes(heard), 8)), [], []);
  }

  lemma NothingYet()
    ensures HearAll(AudioTags(NEW_DUMP.tags)) == Some([])
  {
  }

  /** Times that never go back, from `least` on. */
  predicate SoundsInOrder(sounds: seq<Sound>, least: int) {
    && (forall i :: 0 <= i < |sounds| ==> least <= sounds[i].time)
    && (forall i, j :: 0 <= i < j < |sounds| ==> sounds[i].time <= sounds[j].time)
  }

  lemma {:induction false} OrderedSounds(heard: seq<seq<byte>>, stamps: seq<int>, least: int)
    requires |heard| == |stamps| && forall i :: 0 <= i < |heard| ==> IsAudio(heard[i])
    requires forall i :: 0 <= i < |stamps| ==> 0 <= stamps[i] < 0x8000_0000
    requires forall i :: 0 < i < |stamps| ==> stamps[i - 1] <= stamps[i]
    requires stamps != [] ==> least <= stamps[0]
    ensures SoundsInOrder(Sounds(heard, stamps), least) && SoundsInOrder(Sounds(heard, stamps), 2)
    decreases |heard|
  {
    hide IsAudio, PayloadType, Signed32, SoundsInOrder;
    if heard == [] {
      NoSounds(least);
    } else {
      var rest := Sounds(heard[1..], stamps[1..]);
      SignedSmall(stamps[0]);
      OrderedSounds(heard[1..], stamps[1..], stamps[0]);
      if stamps[0] > 1 {
        SoundFirst(Sounds(heard, stamps)[0], rest, least);
        SoundFirst(Sounds(heard, stamps)[0], rest, 2);
        assert Sounds(heard, stamps) == [Sounds(heard, stamps)[0]] + rest;
      } else {
        SoundsLower(rest, stamps[0], least);
        assert Sounds(heard, stamps) == rest;
      }
    }
  }

  lemma NoSounds(least: int)
    ensures SoundsInOrder([], least) && SoundsInOrder([], 2)
  {
  }

  lemma SoundFirst(first: Sound, rest: seq<Sound>, least: int)
    requires SoundsInOrder(rest, first.time) && least <= first.time
    ensures SoundsInOrder([first] + rest, least)
  {
  }

  lemma SoundsLower(sounds: seq<Sound>, least: int, lower: int)
    requires SoundsInOrder(sounds, least) && lower <= least
    ensures SoundsInOrder(sounds, lower)
  {
  }

  /** RTP times that do not wrap and span less than 2^31 ticks give audio tags whose times never go back. */
  lemma AudioTimesNeverGoBack(packets: seq<seq<byte>>, rtp: seq<int>, freq: int)
    requires ReadableRun(Default, [], packets) && freq > 0
    requires Steady(rtp) && SoundTimes(Heard(Default, [], false, packets)) == AsInt(rtp)
    ensures var end := Run(NEW_DUMP, packets, freq);
            end.Some? ==>
              HearAll(AudioTags(end.value.tags)).Some? && SoundsInOrder(HearAll(AudioTags(end.value.tags)).value, 2)
  {
    var heard := Heard(Default, [], false, packets);
    var stamps := Stamps(NEW_CLOCK, SoundTimes(heard), 8);
    hide Run, Heard, AudioTags, HearAll, Sounds, Stamps, SoundTimes, ReadableRun, Steady, SoundsInOrder;
    PlayerHearsTheAudio(packets, freq);
    SteadyStampsFit(rtp, 8);
    assert Fit31(stamps);
    if rtp != [] {
      SteadyRunsGrow(rtp, 8);
      assert |stamps| == |rtp|;
      forall i | 0 < i < |stamps| ensures stamps[i - 1] <= stamps[i] {
        assert Grows(stamps[i - 1], stamps[i], rtp[i] - rtp[i - 1], 8);
      }
    }
    OrderedSounds(heard, stamps, 0);
  }

  // ---------- the audio in the file ----------

  function HeardOnFile(sounds: seq<Sound>): (r: seq<Sound>)
    ensures |r| == |sounds|
  {
    seq(|sounds|, i requires 0 <= i < |sounds| => sounds[i].(time := sounds[i].time % 0x8000_0000))
  }

  lemma AudioTagsSnoc(tags: seq<Tag>, tag: Tag)
    ensures AudioTags(tags + [tag]) == if tag.kind == 8 then AudioTags(tags) + [tag] else AudioTags(tags)
  {
    AudioTagsAppend(tags, Some(tag));
    assert AudioTags(tags) + [] == AudioTags(tags);
  }

  lemma StoredHears(tag: Tag)
    requires tag.kind == TAG_AUDIO
    ensures Hear(StoredTag(tag))
            == if Hear(tag) == None then None else Some(Hear(tag).value.(time := tag.time % 0x8000_0000))
  {
  }

  lemma {:induction false} StoredHearsAll(tags: seq<Tag>)
    requires MediaKinds(tags)
    ensures HearAll(AudioTags(Stored(tags)))
            == if HearAll(AudioTags(tags)) == None then None else Some(HeardOnFile(HearAll(AudioTags(tags)).value))
    decreases |tags|
  {
    hide Hear, HearAll, Stored, StoredTag, AudioTags, MediaKinds;
    if tags == [] {
      NothingStored();
      NothingKept();
    } else {
      var front, last := tags[..|tags| - 1], tags[|tags| - 1];
      assert front + [last] == tags;
      StoredSnoc(front, last);
      StoredHearsAll(front);
      AudioTagsSnoc(front, last);
      AudioTagsSnoc(Stored(front), StoredTag(last));
      if last.kind == TAG_AUDIO {
        StoredHears(last);
        HearAllSnoc(AudioTags(front), last);
        HearAllSnoc(AudioTags(Stored(front)), StoredTag(last));
        if HearAll(AudioTags(front)).Some? && Hear(last).Some? {
          HearTime(last);
          var a := HearAll(AudioTags(front)).value;
          assert HeardOnFile(a + [Hear(last).value])
                 == HeardOnFile(a) + [Hear(last).value.(time := last.time % 0x8000_0000)];
        }
      }
    }
  }

  lemma HearTime(tag: Tag)
    requires Hear(tag).Some?
    ensures Hear(tag).value.time == tag.time
  {
  }

  lemma HearAllSnoc(tags: seq<Tag>, tag: Tag)
    ensures HearAll(tags + [tag])
            == if HearAll(tags) == None || Hear(tag) == None then None else Some(HearAll(tags).value + [Hear(tag).value])
  {
    hide Hear;
    assert (tags + [tag])[..|tags|] == tags;
  }

  lemma NothingKept()
    ensures AudioTags([]) == [] && HearAll([]) == Some([]) && HeardOnFile([]) == []
  {
  }

  /** The same through the file, whose tags have sizes of 24 bits and times of 31. */
  lemma PlayerHearsTheFile(packets: seq<seq<byte>>, freq: int)
    requires ReadableRun(Default, [], packets) && freq > 0
    ensures var end, heard := Run(NEW_DUMP, packets, freq), Heard(Default, [], false, packets);
            end.Some? && SizesFit(end.value.tags) ==>
              var read := ReadTags(StreamBytes(end.value.tags));
              && read.Some?
              && HearAll(AudioTags(read.value))
                 == Some(HeardOnFile(Sounds(heard, Stamps(NEW_CLOCK, SoundTimes(heard), 8))))
  {
    hide Run, ReadableRun, AudioTags, ReadTags, StreamBytes, HearAll, Heard, Sounds, Stamps, SoundTimes, HeardOnFile;
    PlayerHearsTheAudio(packets, freq);
    RunKinds(NEW_DUMP, packets, freq);
    var end := Run(NEW_DUMP, packets, freq);
    if end.Some? && SizesFit(end.value.tags) {
      ReadsWrittenTags(end.value.tags);
      StoredHearsAll(end.value.tags);
    }
  }
}
