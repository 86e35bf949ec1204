/**
 srs_rtmp_on_aggregate: an RTMP aggregate message is a run of FLV tags. Split is its result on every byte string; on
 what the FLV encoder writes it gives back the tags, with times that SplitTimes describes exactly.
 */
module FlvAggregate {
  import opened Bytes
  import opened KernelStream
  import opened Flv

  /** A message split out of an aggregate: type, absolute time, stream id and payload. */
  datatype Message = Message(kind: byte, time: int, streamId: int, payload: seq<byte>)

  /** The messages found, in order, and whether the whole aggregate was well formed. */
  datatype Parsed = Parsed(messages: seq<Message>, ok: bool)

  /** The time of a tag: 24 bits, then 8 more, of which the sign bit is dropped. */
  function TagTime(low: int, high: int): int { Masked(high * 0x100_0000 + low) }

  /** int32_t arithmetic; `delta` is set by the first tag and again while it is negative. */
  function Adjusted(delta: int, aggregateTime: int, time: int): int {
    if delta < 0 then Signed32(aggregateTime - time) else delta
  }

  /** A tag as it lies in the buffer, and the position behind its previous-tag-size. */
  datatype RawTag = RawTag(kind: byte, time: int, streamId: int, payload: seq<byte>, next: nat)

  /** The tag at `pos`, unless a field does not fit. */
  function TagAt(d: seq<byte>, pos: nat): (r: Option<RawTag>)
    requires pos <= |d|
    ensures r.Some? ==> pos + 15 <= r.value.next <= |d|
  {
    if |d| - pos < 11 then None
    else
      var size := Be24(d[pos + 1], d[pos + 2], d[pos + 3]);
      if |d| - pos < 15 + size then None
      else Some(RawTag(d[pos], TagTime(Be24(d[pos + 4], d[pos + 5], d[pos + 6]), d[pos + 7]),
                       Be24(d[pos + 8], d[pos + 9], d[pos + 10]), d[pos + 11..pos + 11 + size], pos + 15 + size))
  }

  function MessageOf(t: RawTag, shift: int): Message {
    Message(t.kind, Signed32(t.time + shift), t.streamId, t.payload)
  }

  /** Split from byte `pos` of `d` on. */
  function Split(d: seq<byte>, pos: nat, delta: int, aggregateTime: int): (r: Parsed)
    requires pos <= |d|
    decreases |d| - pos
  {
    if pos == |d| then Parsed([], true)
    else
      var t := TagAt(d, pos);
      if t == None then Parsed([], false)
      else
        var shift := Adjusted(delta, aggregateTime, t.value.time);
        var rest := Split(d, t.value.next, shift, aggregateTime);
        Parsed([MessageOf(t.value, shift)] + rest.messages, rest.ok)
  }

  /** Read the eleven header bytes at the cursor, field by field. */
  method ReadTagHeader(stream: SrsStream) returns (ok: bool, kind: byte, size: int, time: int, streamId: int)
    requires stream.Valid() && stream.p < stream.nbBytes
    modifies stream`p
    ensures stream.Valid() && stream.Data() == old(stream.Data())
    ensures var d, pos := old(stream.Data()), old(stream.p);
            && (ok <==> |d| - pos >= 11)
            && (ok ==> && stream.p == pos + 11 && kind == d[pos] && size == Be24(d[pos + 1], d[pos + 2], d[pos + 3])
                       && time == TagTime(Be24(d[pos + 4], d[pos + 5], d[pos + 6]), d[pos + 7])
                       && streamId == Be24(d[pos + 8], d[pos + 9], d[pos + 10]))
  {
    hide Be24, TagTime;
    kind, size, time, streamId := 0, 0, 0, 0;
    if !stream.Require(1) { return false, kind, size, time, streamId; }
    kind := stream.Read1();
    if !stream.Require(3) { return false, kind, size, time, streamId; }
    size := stream.Read3();
    if !stream.Require(3) { return false, kind, size, time, streamId; }
    var low := stream.Read3();
    if !stream.Require(1) { return false, kind, size, time, streamId; }
    var high := stream.Read1();
    time := TagTime(low, high);
    if !stream.Require(3) { return false, kind, size, time, streamId; }
    streamId := stream.Read3();
    ok := true;
  }

  lemma Be24NotNegative(a: byte, b: byte, c: byte)
    ensures Be24(a, b, c) >= 0
  {
  }

  /** Read the tag at the cursor. */
  method ReadTag(stream: SrsStream) returns (t: Option<RawTag>)
    requires stream.Valid() && stream.p < stream.nbBytes
    modifies stream`p
    ensures stream.Valid() && stream.Data() == old(stream.Data())
    ensures t == TagAt(old(stream.Data()), old(stream.p))
    ensures t.Some? ==> stream.p == t.value.next
  {
    hide Be24, TagTime;
    ghost var d, pos := stream.Data(), stream.p;
    var ok, kind, size, time, streamId := ReadTagHeader(stream);
    if !ok { return None; }
    Be24NotNegative(d[pos + 1], d[pos + 2], d[pos + 3]);
    if size > 0 && !stream.Require(size) { return None; }
    var body: seq<byte> := [];
    if size > 0 {
      body := stream.ReadBytes(size);
    }
    assert body == stream.Data()[pos + 11..pos + 11 + size];
    if !stream.Require(4) { return None; }
    var previousTagSize := stream.Read4();
    t := Some(RawTag(kind, time, streamId, body, stream.p));
  }

  /** The loop over the stream. What was found before a field that does not fit is kept. */
  method OnAggregate(payload: array<byte>, aggregateTime: int) returns (messages: seq<Message>, ok: bool)
    ensures payload.Length == 0 ==> !ok && messages == []
    ensures payload.Length > 0 ==> Parsed(messages, ok) == Split(payload[..], 0, -1, aggregateTime)
  {
    hide TagAt, MessageOf, Adjusted;
    messages := [];
    var stream := new SrsStream();
    ok := stream.Initialize(payload, payload.Length);
    if !ok {
      return;
    }
    var delta := -1;
    ghost var d := payload[..];
    while !stream.Empty()
      invariant stream.Valid() && stream.Data() == d && stream.nbBytes == |d| && stream.p <= |d|
      invariant fresh(stream)
      invariant var whole, rest := Split(d, 0, -1, aggregateTime), Split(d, stream.p, delta, aggregateTime);
                whole == Parsed(messages + rest.messages, rest.ok)
      decreases |d| - stream.p
    {
      ghost var rest := Split(d, stream.p, delta, aggregateTime);
      var t := ReadTag(stream);
      if t == None {
        assert messages + [] == messages;
        return messages, false;
      }
      delta := Adjusted(delta, aggregateTime, t.value.time);
      var m := MessageOf(t.value, delta);
      assert rest.messages == [m] + Split(d, stream.p, delta, aggregateTime).messages;
      assert messages + rest.messages == (messages + [m]) + Split(d, stream.p, delta, aggregateTime).messages;
      messages := messages + [m];
    }
    assert messages + [] == messages;
  }

  // ---------- written tags ----------

  /** Bodies that the 24-bit size can describe, times as the encoder stores them. */
  predicate Storable(tags: seq<Tag>) {
    forall i :: 0 <= i < |tags| ==> |tags[i].body| < 0x100_0000 && 0 <= tags[i].time < 0x8000_0000
  }

  /** The messages for written tags, when `delta` is the shift so far. */
  function Expected(tags: seq<Tag>, delta: int, aggregateTime: int): (r: seq<Message>)
    ensures |r| == |tags|
    decreases |tags|
  {
    if tags == [] then []
    else
      var shift := Adjusted(delta, aggregateTime, tags[0].time);
      [Message(tags[0].kind, Signed32(tags[0].time + shift), 0, tags[0].body)]
      + Expected(tags[1..], shift, aggregateTime)
  }

  /** A header, a body of the size it says and four more bytes are found, whatever follows. */
  lemma LaidOutTagAt(d: seq<byte>, pos: nat, h: seq<byte>, body: seq<byte>, tail: seq<byte>, suffix: seq<byte>)
    requires pos <= |d| && |h| == 11 && |tail| == 4 && d[pos..] == h + body + tail + suffix
    requires Be24(h[1], h[2], h[3]) == |body|
    ensures TagAt(d, pos) == Some(RawTag(h[0], TagTime(Be24(h[4], h[5], h[6]), h[7]), Be24(h[8], h[9], h[10]), body,
                                         pos + 15 + |body|))
    ensures d[pos + 15 + |body|..] == suffix
  {
    hide Be24, TagTime;
    var rest := d[pos..];
    forall j | 0 <= j < 11 ensures d[pos + j] == h[j] {
      assert d[pos + j] == rest[j];
    }
    assert d[pos + 11..pos + 11 + |body|] == rest[11..11 + |body|] == body;
    assert d[pos + 15 + |body|..] == rest[15 + |body|..] == suffix;
  }

  /** One written tag is found, whatever follows. */
  lemma WrittenTagAt(d: seq<byte>, pos: nat, tag: Tag, suffix: seq<byte>)
    requires pos <= |d| && d[pos..] == TagBytes(tag) + suffix
    requires |tag.body| < 0x100_0000 && 0 <= tag.time < 0x8000_0000
    ensures var t := TagAt(d, pos);
            t.Some? && t.value == RawTag(tag.kind, tag.time, 0, tag.body, t.value.next) && d[t.value.next..] == suffix
  {
    hide *;
    var h := HeaderBytes(tag.kind, |tag.body|, tag.time);
    TagBytesAre(tag);
    StoredHeader(tag.kind, |tag.body|, tag.time);
    LaidOutTagAt(d, pos, h, tag.body, SizeBytes(|tag.body|), suffix);
  }

  lemma TagBytesAre(tag: Tag)
    requires 0 <= tag.time < 0x8000_0000
    ensures var h, s := HeaderBytes(tag.kind, |tag.body|, tag.time), SizeBytes(|tag.body|);
            TagBytes(tag) == h + tag.body + s && |h| == 11 && |s| == 4
  {
    hide HeaderBytes, SizeBytes;
  }

  lemma Be24OfZeros()
    ensures Be24(0, 0, 0) == 0
  {
  }

  lemma StoredHeader(kind: byte, size: int, time: int)
    requires 0 <= size < 0x100_0000 && 0 <= time < 0x8000_0000
    ensures var h := HeaderBytes(kind, size, time);
            h[0] == kind && Be24(h[1], h[2], h[3]) == size && TagTime(Be24(h[4], h[5], h[6]), h[7]) == time
            && Be24(h[8], h[9], h[10]) == 0
  {
    var h := HeaderBytes(kind, size, time);
    hide HeaderBytes, Be24, TagTime;
    Be24OfZeros();
    HeaderReadsBack(kind, size, time);
    TimeJoined(Be24(h[4], h[5], h[6]), h[7], time);
    SmallModulus(size);
  }

  lemma TimeJoined(low: int, high: int, time: int)
    requires high * 0x100_0000 + low == time && 0 <= time < 0x8000_0000
    ensures TagTime(low, high) == time
  {
  }

  lemma SmallModulus(x: int)
    requires 0 <= x < 0x100_0000
    ensures x % 0x100_0000 == x
  {
  }

  /** Splitting written tags gives their types and bodies in order. */
  lemma {:induction false} SplitsWrittenTags(d: seq<byte>, pos: nat, tags: seq<Tag>, delta: int, aggregateTime: int)
    requires pos <= |d| && d[pos..] == StreamBytes(tags) && Storable(tags)
    ensures Split(d, pos, delta, aggregateTime) == Parsed(Expected(tags, delta, aggregateTime), true)
    decreases |tags|
  {
    hide TagBytes, TagAt, Adjusted, Signed32;
    if tags != [] {
      StreamBytesCons(tags[0], tags[1..]);
      assert [tags[0]] + tags[1..] == tags;
      WrittenTagAt(d, pos, tags[0], StreamBytes(tags[1..]));
      var t := TagAt(d, pos).value;
      SplitsWrittenTags(d, t.next, tags[1..], Adjusted(delta, aggregateTime, tags[0].time), aggregateTime);
    }
  }

  /** The first tag whose time is not after the aggregate's. */
  function FirstNotAfter(tags: seq<Tag>, aggregateTime: int): (k: nat)
    ensures k <= |tags|
    ensures forall i :: 0 <= i < k ==> aggregateTime < tags[i].time
    ensures k < |tags| ==> tags[k].time <= aggregateTime
    decreases |tags|
  {
    if tags == [] || tags[0].time <= aggregateTime then 0 else 1 + FirstNotAfter(tags[1..], aggregateTime)
  }

  lemma {:induction false} ShiftedByDelta(tags: seq<Tag>, delta: int, aggregateTime: int, i: nat)
    requires i < |tags| && Storable(tags) && 0 <= delta
    ensures Expected(tags, delta, aggregateTime)[i]
            == Message(tags[i].kind, Signed32(tags[i].time + delta), 0, tags[i].body)
    decreases i
  {
    hide Signed32;
    if i > 0 { ShiftedByDelta(tags[1..], delta, aggregateTime, i - 1); }
  }

  lemma {:induction false} ShiftsFromFirstNotAfter(tags: seq<Tag>, delta: int, aggregateTime: int, i: nat)
    requires i < |tags| && Storable(tags) && delta < 0 && 0 <= aggregateTime < 0x8000_0000
    ensures var k := FirstNotAfter(tags, aggregateTime);
            Expected(tags, delta, aggregateTime)[i]
            == Message(tags[i].kind,
                       if i < k then aggregateTime else Signed32(tags[i].time + aggregateTime - tags[k].time),
                       0, tags[i].body)
    decreases i
  {
    hide Signed32;
    var shift := Adjusted(delta, aggregateTime, tags[0].time);
    SignedSmall(aggregateTime - tags[0].time);
    SignedSmall(aggregateTime);
    if tags[0].time <= aggregateTime {
      assert tags[0].time + shift == aggregateTime;
      if i > 0 { ShiftedByDelta(tags[1..], shift, aggregateTime, i - 1); }
      assert FirstNotAfter(tags, aggregateTime) == 0;
      assert tags[i].time + shift == tags[i].time + aggregateTime - tags[0].time;
    } else if i > 0 {
      ShiftsFromFirstNotAfter(tags[1..], shift, aggregateTime, i - 1);
    }
  }

  lemma SignedSmall(x: int)
    requires -0x8000_0000 <= x < 0x8000_0000
    ensures Signed32(x) == x
  {
  }

  /** Main result: an aggregate of written tags splits into exactly these tags, bodies and types in order. Tags before
      the first one that is not after the aggregate's time get that time; from there on all are shifted by one delta. */
  lemma AggregateOfWrittenTags(tags: seq<Tag>, aggregateTime: int)
    requires Storable(tags) && 0 <= aggregateTime < 0x8000_0000
    ensures var r, k := Split(StreamBytes(tags), 0, -1, aggregateTime), FirstNotAfter(tags, aggregateTime);
            && r.ok && |r.messages| == |tags|
            && forall i :: 0 <= i < |tags| ==>
                 r.messages[i] == Message(tags[i].kind,
                                          if i < k then aggregateTime
                                          else Signed32(tags[i].time + aggregateTime - tags[k].time),
                                          0, tags[i].body)
  {
    hide Signed32, Split, StreamBytes;
    var d := StreamBytes(tags);
    assert d[0..] == d;
    SplitsWrittenTags(d, 0, tags, -1, aggregateTime);
    forall i | 0 <= i < |tags|
      ensures Expected(tags, -1, aggregateTime)[i]
              == Message(tags[i].kind,
                         if i < FirstNotAfter(tags, aggregateTime) then aggregateTime
                         else Signed32(tags[i].time + aggregateTime - tags[FirstNotAfter(tags, aggregateTime)].time),
                         0, tags[i].body)
    {
      ShiftsFromFirstNotAfter(tags, -1, aggregateTime, i);
    }
  }

  /** All tags are shifted by one delta. */
  predicate OneShift(messages: seq<Message>, tags: seq<Tag>)
    requires |messages| == |tags|
  {
    forall i :: 0 <= i < |tags| ==> messages[i].time - tags[i].time == messages[0].time - tags[0].time
  }

  predicate OneTime(tags: seq<Tag>) { forall i :: 0 <= i < |tags| ==> tags[i].time == tags[0].time }

  /** No shifted time leaves int32_t. */
  predicate ShiftFits(tags: seq<Tag>, aggregateTime: int) {
    forall i :: 0 <= i < |tags| ==> tags[i].time + aggregateTime - tags[0].time < 0x8000_0000
  }

  /** The time that tag `i` gets. */
  function OutTime(tags: seq<Tag>, aggregateTime: int, i: nat): int
    requires i < |tags|
  {
    var k := FirstNotAfter(tags, aggregateTime);
    if i < k then aggregateTime else Signed32(tags[i].time + aggregateTime - tags[k].time)
  }

  predicate HasTimes(messages: seq<Message>, tags: seq<Tag>, aggregateTime: int) {
    |messages| == |tags| && forall i :: 0 <= i < |tags| ==> messages[i].time == OutTime(tags, aggregateTime, i)
  }

  lemma SplitHasTimes(tags: seq<Tag>, aggregateTime: int)
    requires Storable(tags) && 0 <= aggregateTime < 0x8000_0000
    ensures HasTimes(Split(StreamBytes(tags), 0, -1, aggregateTime).messages, tags, aggregateTime)
  {
    hide Split, StreamBytes, Signed32, Storable, FirstNotAfter, OutTime;
    AggregateOfWrittenTags(tags, aggregateTime);
    forall i | 0 <= i < |tags|
      ensures Split(StreamBytes(tags), 0, -1, aggregateTime).messages[i].time == OutTime(tags, aggregateTime, i)
    {
      OutTimeIs(tags, aggregateTime, i);
    }
  }

  lemma OutTimeIs(tags: seq<Tag>, aggregateTime: int, i: nat)
    requires i < |tags|
    ensures OutTime(tags, aggregateTime, i)
            == var k := FirstNotAfter(tags, aggregateTime);
               if i < k then aggregateTime else Signed32(tags[i].time + aggregateTime - tags[k].time)
  {
  }

  lemma SignedSmallExactly(x: int)
    requires -0x8000_0000 <= x
    ensures Signed32(x) == x <==> x < 0x8000_0000
  {
  }

  /** The shift of tag `i` is that of the first one exactly when its time fits. */
  lemma LaterTime(tags: seq<Tag>, aggregateTime: int, i: nat)
    requires Storable(tags) && i < |tags| && tags[0].time <= aggregateTime < 0x8000_0000
    ensures OutTime(tags, aggregateTime, 0) == aggregateTime
    ensures OutTime(tags, aggregateTime, i) - tags[i].time == aggregateTime - tags[0].time
            <==> tags[i].time + aggregateTime - tags[0].time < 0x8000_0000
  {
    assert FirstNotAfter(tags, aggregateTime) == 0;
    SignedSmall(aggregateTime);
    SignedSmallExactly(tags[i].time + aggregateTime - tags[0].time);
  }

  /** An aggregate that is not before its first tag. */
  lemma LaterAggregate(m: seq<Message>, tags: seq<Tag>, aggregateTime: int)
    requires Storable(tags) && tags != [] && tags[0].time <= aggregateTime < 0x8000_0000
    requires HasTimes(m, tags, aggregateTime)
    ensures OneShift(m, tags) <==> ShiftFits(tags, aggregateTime)
  {
    hide OutTime, Storable;
    LaterTime(tags, aggregateTime, 0);
    forall i | 0 <= i < |tags|
      ensures m[i].time - tags[i].time == m[0].time - tags[0].time
              <==> tags[i].time + aggregateTime - tags[0].time < 0x8000_0000
    {
      LaterTime(tags, aggregateTime, i);
    }
  }

  /** An aggregate before its first tag: every time is its own, unless a tag is not after it. */
  lemma EarlierTime(tags: seq<Tag>, aggregateTime: int, i: nat)
    requires Storable(tags) && i < |tags| && 0 <= aggregateTime < tags[0].time
    ensures var k := FirstNotAfter(tags, aggregateTime);
            k > 0 && (i <= k ==> OutTime(tags, aggregateTime, i) == aggregateTime)
  {
    SignedSmall(aggregateTime);
  }

  lemma EarlierAggregate(m: seq<Message>, tags: seq<Tag>, aggregateTime: int)
    requires Storable(tags) && tags != [] && 0 <= aggregateTime < tags[0].time && HasTimes(m, tags, aggregateTime)
    ensures OneShift(m, tags) <==> OneTime(tags)
  {
    hide OutTime, Storable;
    var k := FirstNotAfter(tags, aggregateTime);
    forall i | 0 <= i < |tags| && i <= k ensures m[i].time == aggregateTime {
      EarlierTime(tags, aggregateTime, i);
    }
    EarlierTime(tags, aggregateTime, 0);
    if k < |tags| {
      assert tags[k].time != tags[0].time;
      assert m[k].time - tags[k].time != m[0].time - tags[0].time;
    }
  }

  /** Main result: one delta for all tags if and only if the aggregate is not before the first tag and no shifted time
      leaves int32_t, or all tags have one time. */
  lemma CommonDeltaExactly(tags: seq<Tag>, aggregateTime: int)
    requires Storable(tags) && tags != [] && 0 <= aggregateTime < 0x8000_0000
    ensures var m := Split(StreamBytes(tags), 0, -1, aggregateTime).messages;
            |m| == |tags|
            && (OneShift(m, tags)
                <==> (aggregateTime >= tags[0].time && ShiftFits(tags, aggregateTime)) || OneTime(tags))
  {
    SplitHasTimes(tags, aggregateTime);
    hide Split, StreamBytes, OneShift, Storable;
    var m := Split(StreamBytes(tags), 0, -1, aggregateTime).messages;
    if tags[0].time <= aggregateTime {
      LaterAggregate(m, tags, aggregateTime);
    } else {
      EarlierAggregate(m, tags, aggregateTime);
    }
  }

  const WRAPPING_TAGS := [Tag(TAG_VIDEO, 0, []), Tag(TAG_VIDEO, 0x7FFF_FFFF, [])]

  /** Two tags and an aggregate not before the first one, without a common shift: the second time wraps around. */
  lemma ShiftedTimeWraps()
    ensures var m := Split(StreamBytes(WRAPPING_TAGS), 0, -1, 1).messages;
            |m| == 2 && m[0].time == 1 && m[1].time == -0x8000_0000
  {
    SplitHasTimes(WRAPPING_TAGS, 1);
    WrappingTimes();
    hide Split, StreamBytes, OutTime;
  }

  lemma WrappingTimes()
    ensures OutTime(WRAPPING_TAGS, 1, 0) == 1 && OutTime(WRAPPING_TAGS, 1, 1) == -0x8000_0000
  {
    assert FirstNotAfter(WRAPPING_TAGS, 1) == 0;
  }

  // ---------- aggregates of other writers ----------

  /** A tag with any stream id, and any four bytes where its size should be repeated. */
  datatype Part = Part(kind: byte, time: int, streamId: int, body: seq<byte>, behind: seq<byte>)

  function PartBytes(p: Part): seq<byte> {
    [p.kind] + BigEndian(3, |p.body|) + BigEndian(3, p.time) + [p.time / 0x100_0000 % 256] + BigEndian(3, p.streamId)
    + p.body + p.behind
  }

  predicate Parts(parts: seq<Part>) {
    forall i :: 0 <= i < |parts| ==> |parts[i].behind| == 4 && |parts[i].body| < 0x100_0000
  }

  function AllBytes(parts: seq<Part>): seq<byte> { if parts == [] then [] else PartBytes(parts[0]) + AllBytes(parts[1..]) }

  lemma TimeBack(time: int)
    ensures TagTime(time % 0x100_0000, time / 0x100_0000 % 256) == time % 0x8000_0000
  {
    var q := time / 0x100_0000;
    assert time == q * 0x100_0000 + time % 0x100_0000;
    ModUnique(time, 0x8000_0000, q / 128, q % 128 * 0x100_0000 + time % 0x100_0000);
    ModUnique(q % 256 * 0x100_0000 + time % 0x100_0000, 0x8000_0000, q % 256 / 128,
              q % 128 * 0x100_0000 + time % 0x100_0000);
  }

  /** Every such tag is read, its stream id too, and the bytes behind it do not matter. */
  lemma PartIsRead(d: seq<byte>, pos: nat, p: Part, rest: seq<byte>)
    requires pos <= |d| && d[pos..] == PartBytes(p) + rest && |p.behind| == 4 && |p.body| < 0x100_0000
    ensures pos + 15 + |p.body| <= |d| && d[pos + 15 + |p.body|..] == rest
    ensures TagAt(d, pos)
            == Some(RawTag(p.kind, p.time % 0x8000_0000, p.streamId % 0x100_0000, p.body, pos + 15 + |p.body|))
  {
    hide BigEndian, Be24, TagTime;
    Be24RoundTrip(|p.body|);
    Be24RoundTrip(p.time);
    Be24RoundTrip(p.streamId);
    TimeBack(p.time);
    var a, b, c := BigEndian(3, |p.body|), BigEndian(3, p.time), BigEndian(3, p.streamId);
    var s, n := d[pos..], |p.body|;
    assert s[0] == p.kind && s[1] == a[0] && s[2] == a[1] && s[3] == a[2] && s[4] == b[0] && s[5] == b[1] && s[6] == b[2];
    assert s[7] == p.time / 0x100_0000 % 256 && s[8] == c[0] && s[9] == c[1] && s[10] == c[2];
    assert s[11..11 + n] == p.body && s[15 + n..] == rest;
    forall i | 0 <= i < 11 ensures d[pos + i] == s[i] {
    }
    assert d[pos + 11..pos + 11 + n] == s[11..11 + n] && d[pos + 15 + n..] == s[15 + n..];
  }

  /** Main result: an aggregate of any such tags splits into them, in order, with their types, stream ids and bodies. */
  lemma {:induction false} SplitsAnyTags(d: seq<byte>, pos: nat, parts: seq<Part>, delta: int, aggregateTime: int)
    requires pos <= |d| && d[pos..] == AllBytes(parts) && Parts(parts)
    ensures var r := Split(d, pos, delta, aggregateTime);
            && r.ok && |r.messages| == |parts|
            && forall i :: 0 <= i < |parts| ==>
                 r.messages[i].kind == parts[i].kind && r.messages[i].payload == parts[i].body
                 && r.messages[i].streamId == parts[i].streamId % 0x100_0000
    decreases |parts|
  {
    hide TagAt, PartBytes, Signed32;
    if parts != [] {
      PartIsRead(d, pos, parts[0], AllBytes(parts[1..]));
      var t := TagAt(d, pos).value;
      SplitsAnyTags(d, t.next, parts[1..], Adjusted(delta, aggregateTime, t.time), aggregateTime);
    }
  }

  /** A tag is refused exactly when its header, its body or the four bytes behind it do not fit. */
  lemma RefusedExactly(d: seq<byte>, pos: nat)
    requires pos <= |d|
    ensures TagAt(d, pos) == None
            <==> |d| - pos < 11 || |d| - pos < 11 + Be24(d[pos + 1], d[pos + 2], d[pos + 3]) + 4
  {
    hide Be24;
  }
}
