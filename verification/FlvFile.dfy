/**
 Reading a written FLV file tag by tag, as srs_flv_read_tag_header and srs_flv_read_tag_data do, and with it the whole
 way from RTP packets to the NAL units that a player finds in the file.
 */
module FlvFile {
  import opened Bytes
  import opened Flv
  import opened RawAvc
  import opened RtpDump

  /** The tags of a file behind its header; None when one is cut off. */
  function ReadTags(d: seq<byte>): Option<seq<Tag>>
    decreases |d|
  {
    if d == [] then Some([])
    else if |d| < TAG_HEADER_SIZE then None
    else
      var h := ReadTagHeader(d[..TAG_HEADER_SIZE]);
      if |d| < TAG_HEADER_SIZE + h.size + PREVIOUS_TAG_SIZE then None
      else
        var rest := ReadTags(d[TAG_HEADER_SIZE + h.size + PREVIOUS_TAG_SIZE..]);
        if rest == None then None
        else Some([Tag(h.kind, h.time, d[TAG_HEADER_SIZE..TAG_HEADER_SIZE + h.size])] + rest.value)
  }

  /** A tag as a reader sees it: type in five bits, time in 31. */
  function StoredTag(tag: Tag): Tag { Tag(tag.kind % 32, Masked(tag.time), tag.body) }

  function Stored(tags: seq<Tag>): (r: seq<Tag>)
    ensures |r| == |tags|
  {
    seq(|tags|, i requires 0 <= i < |tags| => StoredTag(tags[i]))
  }

  predicate SizesFit(tags: seq<Tag>) { forall i :: 0 <= i < |tags| ==> |tags[i].body| < 0x100_0000 }

  lemma ReadsOneTag(tag: Tag, rest: seq<byte>)
    requires |tag.body| < 0x100_0000
    ensures ReadTags(TagBytes(tag) + rest)
            == var r := ReadTags(rest); if r == None then None else Some([StoredTag(tag)] + r.value)
  {
    TagHeaderRoundTrip(tag);
    TagLength(tag);
    hide TagBytes, ReadTagHeader;
    var t, d, n := TagBytes(tag), TagBytes(tag) + rest, |tag.body|;
    assert d[..TAG_HEADER_SIZE] == t[..TAG_HEADER_SIZE];
    assert d[TAG_HEADER_SIZE..TAG_HEADER_SIZE + n] == t[TAG_HEADER_SIZE..TAG_HEADER_SIZE + n];
    assert d[TAG_HEADER_SIZE + n + PREVIOUS_TAG_SIZE..] == rest;
  }

  lemma TagLength(tag: Tag)
    ensures |TagBytes(tag)| == TAG_HEADER_SIZE + |tag.body| + PREVIOUS_TAG_SIZE
  {
    hide HeaderBytes, SizeBytes;
  }

  /** Every list of tags with 24-bit sizes is read back. */
  lemma {:induction false} ReadsWrittenTags(tags: seq<Tag>)
    requires SizesFit(tags)
    ensures ReadTags(StreamBytes(tags)) == Some(Stored(tags))
    decreases |tags|
  {
    hide TagBytes, StoredTag;
    if tags != [] {
      assert [tags[0]] + tags[1..] == tags;
      StreamBytesCons(tags[0], tags[1..]);
      ReadsWrittenTags(tags[1..]);
      ReadsOneTag(tags[0], StreamBytes(tags[1..]));
      assert Stored(tags) == [StoredTag(tags[0])] + Stored(tags[1..]);
    }
  }

  // ---------- backwards ----------

  /** The tags of a file from its end, found by the sizes behind them. */
  function ReadTagsBack(d: seq<byte>): Option<seq<Tag>>
    decreases |d|
  {
    if d == [] then Some([])
    else if |d| < 4 then None
    else
      var k := |d| - 4;
      var n := Be32(d[k], d[k + 1], d[k + 2], d[k + 3]);
      if n < TAG_HEADER_SIZE || n > k then None
      else
        var h := ReadTagHeader(d[k - n..k - n + TAG_HEADER_SIZE]);
        var front := ReadTagsBack(d[..k - n]);
        if front == None || h.size != n - TAG_HEADER_SIZE then None
        else Some(front.value + [Tag(h.kind, h.time, d[k - n + TAG_HEADER_SIZE..k])])
  }

  lemma SizeBehind(tag: Tag)
    requires |tag.body| < 0x100_0000
    ensures var t := TagBytes(tag);
            var k := TAG_HEADER_SIZE + |tag.body|;
            |t| == k + 4 && Be32(t[k], t[k + 1], t[k + 2], t[k + 3]) == k
  {
    TagLength(tag);
    SizeRead(|tag.body|);
    hide HeaderBytes, SizeBytes, Be32, Masked;
    var k, b := TAG_HEADER_SIZE + |tag.body|, SizeBytes(|tag.body|);
    var t := TagBytes(tag);
    assert t[k] == b[0] && t[k + 1] == b[1] && t[k + 2] == b[2] && t[k + 3] == b[3];
  }

  lemma SizeRead(n: nat)
    requires n < 0x100_0000
    ensures var b := SizeBytes(n); |b| == 4 && Be32(b[0], b[1], b[2], b[3]) == TAG_HEADER_SIZE + n
  {
    Be32RoundTrip(TAG_HEADER_SIZE + n);
    hide Be32, BigEndian;
  }

  lemma ReadsBackOne(front: seq<byte>, tag: Tag)
    requires |tag.body| < 0x100_0000
    ensures ReadTagsBack(front + TagBytes(tag))
            == var r := ReadTagsBack(front); if r == None then None else Some(r.value + [StoredTag(tag)])
  {
    hide TagBytes, ReadTagHeader, Be32, Masked, ReadTagsBack;
    TagHeaderRoundTrip(tag);
    SizeBehind(tag);
    var t, d := TagBytes(tag), front + TagBytes(tag);
    var k, n := |d| - 4, TAG_HEADER_SIZE + |tag.body|;
    assert k - n == |front| && d[..k - n] == front;
    assert d[k] == t[n] && d[k + 1] == t[n + 1] && d[k + 2] == t[n + 2] && d[k + 3] == t[n + 3];
    assert d[k - n..k - n + TAG_HEADER_SIZE] == t[..TAG_HEADER_SIZE];
    assert d[k - n + TAG_HEADER_SIZE..k] == t[TAG_HEADER_SIZE..n];
    ReadTagsBackIs(d);
  }

  lemma ReadTagsBackIs(d: seq<byte>)
    requires |d| >= 4 + TAG_HEADER_SIZE
    ensures var k := |d| - 4;
            var n := Be32(d[k], d[k + 1], d[k + 2], d[k + 3]);
            TAG_HEADER_SIZE <= n <= k ==>
              var h, front := ReadTagHeader(d[k - n..k - n + TAG_HEADER_SIZE]), ReadTagsBack(d[..k - n]);
              ReadTagsBack(d)
              == if front == None || h.size != n - TAG_HEADER_SIZE then None
                 else Some(front.value + [Tag(h.kind, h.time, d[k - n + TAG_HEADER_SIZE..k])])
  {
    hide ReadTagHeader, Be32;
  }

  /** Every list of tags with 24-bit sizes is read back from the end of its file, too. */
  lemma {:induction false} ReadsWrittenTagsBack(tags: seq<Tag>)
    requires SizesFit(tags)
    ensures ReadTagsBack(StreamBytes(tags)) == Some(Stored(tags))
    decreases |tags|
  {
    hide TagBytes, StoredTag, ReadTagsBack;
    if tags == [] {
      NothingBack();
    } else {
      var front, last := tags[..|tags| - 1], tags[|tags| - 1];
      ReadsWrittenTagsBack(front);
      ReadsBackOne(StreamBytes(front), last);
      assert Stored(tags) == Stored(front) + [StoredTag(last)];
    }
  }

  lemma NothingBack()
    ensures ReadTagsBack([]) == Some([])
  {
  }

  // ---------- from packets to the file ----------

  /** Types that keep their five bits. */
  predicate MediaKinds(tags: seq<Tag>) {
    forall i :: 0 <= i < |tags| ==> tags[i].kind == TAG_AUDIO || tags[i].kind == TAG_VIDEO
  }

  lemma PacketKinds(d: Dump, p: seq<byte>, freq: int)
    requires Readable(d.camera, d.nal, p) && freq > 0 && MediaKinds(d.tags)
    ensures var next := Handle(d, p, freq); next.Some? ==> MediaKinds(next.value.tags)
  {
    hide Receive, VideoHandler, AudioHandler, Readable;
    if IsAudio(p) {
      AudioHandlerKind(d.audio, p[12..], TimeOf(p), PayloadType(p) == 8);
    } else if IsVideo(p) {
      var r := Receive(d.camera, d.nal, p);
      if r.unit.Some? {
        VideoHandlerKind(d.video, r.unit.value, freq);
      }
    }
  }

  lemma {:induction false} RunKinds(d: Dump, packets: seq<seq<byte>>, freq: int)
    requires ReadableRun(d.camera, d.nal, packets) && freq > 0 && MediaKinds(d.tags)
    ensures var end := Run(d, packets, freq); end.Some? ==> MediaKinds(end.value.tags)
    decreases |packets|
  {
    hide Handle, Receive, Readable, MediaKinds;
    if packets != [] {
      PacketKinds(d, packets[0], freq);
      PacketIsCall(d, packets[0], freq);
      var next := Handle(d, packets[0], freq);
      if next.Some? {
        RunKinds(next.value, packets[1..], freq);
      }
    }
  }

  lemma StoredSnoc(tags: seq<Tag>, tag: Tag)
    requires MediaKinds(tags + [tag])
    ensures MediaKinds(tags) && Stored(tags + [tag]) == Stored(tags) + [StoredTag(tag)]
    ensures StoredTag(tag).kind == tag.kind && StoredTag(tag).body == tag.body
  {
    assert (tags + [tag])[|tags|] == tag;
    assert forall i :: 0 <= i < |tags| ==> (tags + [tag])[i] == tags[i];
  }

  lemma VideoTagsSnoc(tags: seq<Tag>, tag: Tag)
    ensures VideoTags(tags + [tag]) == if tag.kind == TAG_VIDEO then VideoTags(tags) + [tag] else VideoTags(tags)
  {
    assert (tags + [tag])[..|tags|] == tags;
  }

  lemma NothingStored()
    ensures Stored([]) == []
  {
  }

  /** The reader finds the same video tags, and in them the same NAL units. */
  lemma {:induction false} StoredKeepsNals(tags: seq<Tag>)
    requires MediaKinds(tags)
    ensures NalsInTags(VideoTags(Stored(tags))) == NalsInTags(VideoTags(tags))
    ensures |VideoTags(Stored(tags))| == |VideoTags(tags)|
    decreases |tags|
  {
    hide Stored, StoredTag, VideoTags, NalsInTags, ReadPrefixed, MediaKinds;
    if tags == [] {
      NothingStored();
    } else {
      var front, last := tags[..|tags| - 1], tags[|tags| - 1];
      assert front + [last] == tags;
      StoredSnoc(front, last);
      StoredKeepsNals(front);
      VideoTagsSnoc(front, last);
      VideoTagsSnoc(Stored(front), StoredTag(last));
      NalsInTagsSnoc(VideoTags(front), last);
      NalsInTagsSnoc(VideoTags(Stored(front)), StoredTag(last));
    }
  }

  /** Main result, from packets to file: when a run goes on, reading the written file gives exactly the NAL units of the
      slices received after the second parameter set up to the last marker, in order. */
  lemma FileHoldsReceivedSlices(packets: seq<seq<byte>>, ds: seq<Delivery>, units: seq<Unit>, freq: int)
    requires VideoPackets(packets) == AllPackets(ds) && CarriesAll(ds, units) && Short(units) && freq > 0
    requires NoneToPs(Default, packets)
    ensures ReadableRun(Default, [], packets)
    ensures var end := Run(NEW_DUMP, packets, freq);
            end.Some? && SizesFit(end.value.tags) ==>
              var read := ReadTags(StreamBytes(end.value.tags));
              read.Some? && NalsInTags(VideoTags(read.value)) == Some(Nals(UpToMarker(Slices(units))))
  {
    hide Run, ReadableRun, NalsInTags, VideoTags, Slices, ReadTags, StreamBytes, VideoPackets, AllPackets, CarriesAll;
    hide Short, NoneToPs;
    WrittenNalsAreReceivedSlices(packets, ds, units, freq);
    var end := Run(NEW_DUMP, packets, freq);
    RunKinds(NEW_DUMP, packets, freq);
    if end.Some? && SizesFit(end.value.tags) {
      ReadsWrittenTags(end.value.tags);
      StoredKeepsNals(end.value.tags);
    }
  }
}
