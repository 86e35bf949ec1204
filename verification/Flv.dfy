/**
 FLV tags and SrsFlvEncoder. TagBytes is what one tag looks like in the file; the encoder's cached, batched writer is
 proved to write exactly these bytes, whatever its caches held before.
 */
module Flv {
  import opened Bytes
  import opened KernelStream

  const TAG_AUDIO: byte := 8
  const TAG_VIDEO: byte := 9
  const TAG_SCRIPT: byte := 18
  const TAG_HEADER_SIZE: nat := 11
  const PREVIOUS_TAG_SIZE: nat := 4

  /** A tag to write; `time` is the int64_t that the caller passes. */
  datatype Tag = Tag(kind: byte, time: int, body: seq<byte>)

  /** `timestamp &= 0x7fffffff` */
  function Masked(time: int): (r: int)
    ensures 0 <= r < 0x8000_0000
  {
    time % 0x8000_0000
  }

  /** Type, size, low 24 bits of the time, high 8 bits, stream id 0. */
  function HeaderBytes(kind: byte, size: int, time: int): (r: seq<byte>)
    ensures |r| == TAG_HEADER_SIZE
  {
    [kind] + BigEndian(3, size) + BigEndian(3, time) + [time / 0x100_0000 % 256] + [0, 0, 0]
  }

  function SizeBytes(size: int): (r: seq<byte>)
    ensures |r| == PREVIOUS_TAG_SIZE
  {
    BigEndian(4, TAG_HEADER_SIZE + size)
  }

  function TagBytes(tag: Tag): seq<byte> {
    HeaderBytes(tag.kind, |tag.body|, Masked(tag.time)) + tag.body + SizeBytes(|tag.body|)
  }

  /** The tags one after the other. */
  function StreamBytes(tags: seq<Tag>): seq<byte> {
    if tags == [] then [] else StreamBytes(tags[..|tags| - 1]) + TagBytes(tags[|tags| - 1])
  }

  lemma StreamBytesSnoc(tags: seq<Tag>, tag: Tag)
    ensures StreamBytes(tags + [tag]) == StreamBytes(tags) + TagBytes(tag)
  {
    assert (tags + [tag])[..|tags|] == tags;
  }

  lemma {:induction false} StreamBytesCons(tag: Tag, tags: seq<Tag>)
    ensures StreamBytes([tag] + tags) == TagBytes(tag) + StreamBytes(tags)
  {
    hide TagBytes;
    if tags == [] {
      assert [tag] + tags == [] + [tag];
      StreamBytesSnoc([], tag);
      assert [] + TagBytes(tag) == TagBytes(tag) + [];
    } else {
      var front, last := tags[..|tags| - 1], tags[|tags| - 1];
      StreamBytesCons(tag, front);
      assert [tag] + tags == ([tag] + front) + [last];
      StreamBytesSnoc([tag] + front, last);
    }
  }

  // ---------- reading tags back ----------

  /** The fields that SrsFlvDecoder::read_tag_header finds in 11 bytes: type in 5 bits, 24-bit size, 32-bit time. */
  datatype TagHeader = TagHeader(kind: int, size: int, time: int)

  function ReadTagHeader(h: seq<byte>): TagHeader
    requires |h| == TAG_HEADER_SIZE
  {
    TagHeader(h[0] % 32, Be24(h[1], h[2], h[3]), Be32(h[7], h[4], h[5], h[6]))
  }

  /** What the aggregate reader and the file reader see in a written header. */
  lemma HeaderParts(kind: byte, size: int, time: int)
    ensures var h := HeaderBytes(kind, size, time);
            h[0] == kind && h[1..4] == BigEndian(3, size) && h[4..7] == BigEndian(3, time)
            && h[7] == time / 0x100_0000 % 256 && h[8..11] == [0, 0, 0]
  {
  }

  lemma HeaderReadsBack(kind: byte, size: int, time: int)
    requires 0 <= time < 0x8000_0000
    ensures var h := HeaderBytes(kind, size, time);
            && Be24(h[1], h[2], h[3]) == size % 0x100_0000
            && h[7] as int * 0x100_0000 + Be24(h[4], h[5], h[6]) == time
            && h[0] == kind && h[8] == h[9] == h[10] == 0
  {
    var h := HeaderBytes(kind, size, time);
    HeaderParts(kind, size, time);
    hide HeaderBytes, BigEndian, Be24;
    Be24RoundTrip(size);
    Be24RoundTrip(time);
    assert h[1] == h[1..4][0] && h[2] == h[1..4][1] && h[3] == h[1..4][2];
    assert h[4] == h[4..7][0] && h[5] == h[4..7][1] && h[6] == h[4..7][2];
    assert h[8] == h[8..11][0] && h[9] == h[8..11][1] && h[10] == h[8..11][2];
  }

  /** The file reader gets the tag's type (5 bits), its size modulo 2^24 and its time modulo 2^31. */
  lemma TagHeaderRoundTrip(tag: Tag)
    ensures TagBytes(tag)[TAG_HEADER_SIZE..TAG_HEADER_SIZE + |tag.body|] == tag.body
    ensures ReadTagHeader(TagBytes(tag)[..TAG_HEADER_SIZE])
            == TagHeader(tag.kind % 32, |tag.body| % 0x100_0000, Masked(tag.time))
  {
    var time := Masked(tag.time);
    HeaderReadsBack(tag.kind, |tag.body|, time);
    HeaderParts(tag.kind, |tag.body|, time);
    hide HeaderBytes, SizeBytes, Masked;
    var h := HeaderBytes(tag.kind, |tag.body|, time);
    assert TagBytes(tag)[..TAG_HEADER_SIZE] == h;
    assert Be32(h[7], h[4], h[5], h[6]) == h[7] as int * 0x100_0000 + Be24(h[4], h[5], h[6]);
  }

  // ---------- the encoder ----------

  /** Part of a buffer: the pointer and length of an iovec. */
  datatype Iovec = Iovec(base: array<byte>, start: nat, len: nat)

  ghost predicate IovecValid(v: Iovec) { v.start + v.len <= v.base.Length }

  ghost function Gathered(iov: seq<Iovec>): seq<byte>
    requires forall i :: 0 <= i < |iov| ==> IovecValid(iov[i])
    reads set i | 0 <= i < |iov| :: iov[i].base
  {
    if iov == [] then []
    else
      var v := iov[|iov| - 1];
      assert IovecValid(v);
      Gathered(iov[..|iov| - 1]) + v.base[v.start..v.start + v.len]
  }

  lemma GatheredThree(u: Iovec, v: Iovec, w: Iovec)
    requires IovecValid(u) && IovecValid(v) && IovecValid(w)
    ensures Gathered([u, v, w]) == u.base[u.start..u.start + u.len] + v.base[v.start..v.start + v.len]
                                   + w.base[w.start..w.start + w.len]
  {
    var iov := [u, v, w];
    assert iov[..2] == [u, v] && [u, v][..1] == [u] && [u][..0] == [];
    assert Gathered([u]) == [] + u.base[u.start..u.start + u.len];
    assert Gathered([u, v]) == Gathered([u]) + v.base[v.start..v.start + v.len];
  }

  /** SrsFileWriter as the bytes of its file. */
  class ByteWriter {
    var written: seq<byte>

    constructor ()
      ensures written == []
    {
      written := [];
    }

    method Write(buf: array<byte>)
      modifies this
      ensures written == old(written) + buf[..]
    {
      written := written + buf[..];
    }

    method WriteV(iov: array<Iovec>, count: nat)
      requires count <= iov.Length && forall i :: 0 <= i < count ==> IovecValid(iov[i])
      modifies this
      ensures written == old(written) + Gathered(iov[..count])
    {
      for i := 0 to count
        invariant written == old(written) + Gathered(iov[..i])
      {
        assert iov[..i + 1][..i] == iov[..i];
        written := written + iov[i].base[iov[i].start..iov[i].start + iov[i].len];
      }
    }
  }

  /** SrsSharedPtrMessage: its message type, time and payload buffer. */
  datatype SharedMessage = SharedMessage(messageType: byte, timestamp: int, payload: array<byte>)

  /** What a message becomes: metadata has type 18 and time 0. */
  ghost function TagOf(m: SharedMessage): Tag
    reads m.payload
  {
    if m.messageType == TAG_AUDIO || m.messageType == TAG_VIDEO then Tag(m.messageType, m.timestamp, m.payload[..])
    else Tag(TAG_SCRIPT, 0, m.payload[..])
  }

  ghost function TagsOf(msgs: seq<SharedMessage>): (r: seq<Tag>)
    reads set i | 0 <= i < |msgs| :: msgs[i].payload
    ensures |r| == |msgs|
    decreases |msgs|
  {
    if msgs == [] then [] else TagsOf(msgs[..|msgs| - 1]) + [TagOf(msgs[|msgs| - 1])]
  }

  /** The encoder's caches and what they hold. */
  datatype Caches = Caches(headers: array<byte>, sizes: array<byte>, h: seq<byte>, s: seq<byte>, iov: seq<Iovec>)
  {
    ghost predicate Holds(n: nat) { |h| >= 11 * n && |s| >= 4 * n && |iov| >= 3 * n }

    /** The same caches, with the same first `n` entries. */
    ghost predicate Keeps(c: Caches, n: nat)
      requires Holds(n) && c.Holds(n)
    {
      headers == c.headers && sizes == c.sizes && h[..11 * n] == c.h[..11 * n] && s[..4 * n] == c.s[..4 * n]
      && iov[..3 * n] == c.iov[..3 * n]
    }
  }

  /** Entry `k` of a batch is in place: its header and its size are cached, and its three buffers are listed. */
  ghost predicate Listed(tag: Tag, payload: array<byte>, k: nat, c: Caches)
    requires c.Holds(k + 1)
  {
    && c.iov[3 * k] == Iovec(c.headers, 11 * k, 11)
    && c.iov[3 * k + 1] == Iovec(payload, 0, |tag.body|)
    && c.iov[3 * k + 2] == Iovec(c.sizes, 4 * k, 4)
    && c.h[11 * k..11 * k + 11] == HeaderBytes(tag.kind, |tag.body|, Masked(tag.time))
    && c.s[4 * k..4 * k + 4] == SizeBytes(|tag.body|)
  }

  ghost predicate AllListed(tags: seq<Tag>, msgs: seq<SharedMessage>, n: nat, c: Caches)
    requires n <= |tags| == |msgs|
  {
    c.Holds(n) && forall k :: 0 <= k < n ==> Listed(tags[k], msgs[k].payload, k, c)
  }

  /** Entries survive the listing of a later one. */
  lemma StillListed(tags: seq<Tag>, msgs: seq<SharedMessage>, n: nat, was: Caches, c: Caches)
    requires n < |tags| == |msgs| && AllListed(tags, msgs, n, was) && c.Holds(n + 1) && c.Keeps(was, n)
    requires Listed(tags[n], msgs[n].payload, n, c)
    ensures AllListed(tags, msgs, n + 1, c)
  {
    forall k | 0 <= k < n ensures Listed(tags[k], msgs[k].payload, k, c) {
      EntryStays(tags[k], msgs[k].payload, k, n, was, c);
    }
  }

  lemma EntryStays(tag: Tag, payload: array<byte>, k: nat, n: nat, was: Caches, c: Caches)
    requires k < n && c.Holds(n) && was.Holds(n) && c.Keeps(was, n) && Listed(tag, payload, k, was)
    ensures Listed(tag, payload, k, c)
  {
    hide HeaderBytes, SizeBytes;
    assert c.h[11 * k..11 * k + 11] == c.h[..11 * n][11 * k..11 * k + 11];
    assert was.h[11 * k..11 * k + 11] == was.h[..11 * n][11 * k..11 * k + 11];
    assert c.s[4 * k..4 * k + 4] == c.s[..4 * n][4 * k..4 * k + 4];
    assert was.s[4 * k..4 * k + 4] == was.s[..4 * n][4 * k..4 * k + 4];
    forall j | 3 * k <= j < 3 * k + 3 ensures c.iov[j] == was.iov[j] {
      assert c.iov[j] == c.iov[..3 * n][j];
    }
  }

  /** Gathering one more entry appends its tag. */
  lemma ListedGatherOne(tag: Tag, payload: array<byte>, k: nat, c: Caches)
    requires c.Holds(k + 1) && Listed(tag, payload, k, c) && forall i :: 0 <= i < 3 * k ==> IovecValid(c.iov[i])
    requires payload[..] == tag.body && c.headers[..] == c.h && c.sizes[..] == c.s
    ensures forall i :: 0 <= i < 3 * k + 3 ==> IovecValid(c.iov[i])
    ensures Gathered(c.iov[..3 * k + 3]) == Gathered(c.iov[..3 * k]) + TagBytes(tag)
  {
    hide HeaderBytes, SizeBytes, Gathered;
    var g := Gathered(c.iov[..3 * k]);
    var h, s := c.headers[11 * k..11 * k + 11], c.sizes[4 * k..4 * k + 4];
    GatheredSnoc(c.iov, 3 * k);
    GatheredSnoc(c.iov, 3 * k + 1);
    GatheredSnoc(c.iov, 3 * k + 2);
    assert Gathered(c.iov[..3 * k + 3]) == g + h + payload[..] + s;
    assert g + h + payload[..] + s == g + TagBytes(tag);
  }

  lemma GatheredSnoc(iov: seq<Iovec>, n: nat)
    requires n < |iov| && forall i :: 0 <= i <= n ==> IovecValid(iov[i])
    ensures var v := iov[n]; Gathered(iov[..n + 1]) == Gathered(iov[..n]) + v.base[v.start..v.start + v.len]
  {
    assert iov[..n + 1][..n] == iov[..n];
  }

  /** Gathering listed entries gives their tags. */
  lemma {:induction false} ListedGather(tags: seq<Tag>, msgs: seq<SharedMessage>, n: nat, c: Caches)
    requires n <= |tags| == |msgs| && AllListed(tags, msgs, n, c) && c.headers[..] == c.h && c.sizes[..] == c.s
    requires forall k :: 0 <= k < n ==> msgs[k].payload[..] == tags[k].body
    ensures forall i :: 0 <= i < 3 * n ==> IovecValid(c.iov[i])
    ensures Gathered(c.iov[..3 * n]) == StreamBytes(tags[..n])
  {
    hide TagBytes, Listed;
    if n > 0 {
      ListedGather(tags, msgs, n - 1, c);
      ListedGatherOne(tags[n - 1], msgs[n - 1].payload, n - 1, c);
      assert tags[..n] == tags[..n - 1] + [tags[n - 1]];
      StreamBytesSnoc(tags[..n - 1], tags[n - 1]);
    }
  }

  lemma {:induction false} TagsOfAt(msgs: seq<SharedMessage>, k: nat)
    requires k < |msgs|
    ensures TagsOf(msgs)[k] == TagOf(msgs[k]) && TagOf(msgs[k]).body == msgs[k].payload[..]
    decreases |msgs|
  {
    if k < |msgs| - 1 { TagsOfAt(msgs[..|msgs| - 1], k); }
  }

  lemma Overwritten(b: seq<byte>, at: nat, s: seq<byte>)
    requires at + |s| <= |b|
    ensures Overwrite(b, at, s)[..at] == b[..at] && Overwrite(b, at, s)[at..at + |s|] == s
    ensures Overwrite(b, at, s)[..at + |s|] == b[..at] + s
  {
  }

  lemma HeaderFields(kind: byte, size: int, time: int, done: seq<byte>)
    requires done == [kind] + BigEndian(3, size) + BigEndian(3, time) + [time / 0x100_0000 % 256]
    ensures done + [0, 0, 0] == HeaderBytes(kind, size, time)
  {
  }

  lemma WholeSize(was: seq<byte>, size: nat)
    requires |was| == PREVIOUS_TAG_SIZE
    ensures Overwrite(was, 0, BigEndian(4, size + TAG_HEADER_SIZE)) == SizeBytes(size)
  {
    hide BigEndian;
  }

  class SrsFlvEncoder {
    const writer: ByteWriter
    const tagStream: SrsStream
    const tagHeader: array<byte>
    var nbTagHeaders: nat
    var tagHeaders: array<byte>
    var nbIovssCache: nat
    var iovssCache: array<Iovec>
    var nbPpts: nat
    var ppts: array<byte>

    ghost predicate Valid()
      reads this
    {
      && tagHeader.Length == TAG_HEADER_SIZE
      && tagHeaders.Length == TAG_HEADER_SIZE * nbTagHeaders
      && ppts.Length == PREVIOUS_TAG_SIZE * nbPpts
      && iovssCache.Length == nbIovssCache
      && tagHeaders != ppts && tagHeaders != tagHeader && ppts != tagHeader
    }

    /** A buffer that is none of the encoder's own. */
    ghost predicate Outside(a: array<byte>)
      reads this
    {
      a != tagHeader && a != tagHeaders && a != ppts
    }

    constructor (w: ByteWriter)
      ensures Valid() && writer == w
      ensures fresh(tagStream) && fresh(tagHeader) && fresh(tagHeaders) && fresh(iovssCache) && fresh(ppts)
    {
      var header, headers, sizes := new byte[TAG_HEADER_SIZE], new byte[0], new byte[0];
      writer := w;
      tagStream := new SrsStream();
      tagHeader := header;
      nbTagHeaders := 0;
      tagHeaders := headers;
      nbIovssCache := 0;
      iovssCache := new Iovec[0];
      nbPpts := 0;
      ppts := sizes;
    }

    /** write_header: the file header and a previous-tag-size of 0. */
    method WriteHeader(flvHeader: array<byte>)
      requires flvHeader.Length == 9
      modifies writer
      ensures writer.written == old(writer.written) + flvHeader[..] + [0, 0, 0, 0]
    {
      writer.Write(flvHeader);
      var pts := new byte[4];
      pts[0], pts[1], pts[2], pts[3] := 0, 0, 0, 0;
      writer.Write(pts);
    }

    /** The 11 bytes of write_audio_to_cache, write_video_to_cache and, with time 0, write_metadata_to_cache. */
    method WriteHeaderToCache(kind: byte, time: int, size: int, cache: array<byte>, at: nat)
      requires at + TAG_HEADER_SIZE <= cache.Length
      modifies tagStream, cache
      ensures cache[..] == Overwrite(old(cache[..]), at, HeaderBytes(kind, size, time))
    {
      hide HeaderBytes, BigEndian, Overwrite;
      ghost var was := cache[..];
      var ok := tagStream.Initialize(cache, at + TAG_HEADER_SIZE);
      tagStream.Skip(at);
      var first: seq<byte>, length, low := [kind], BigEndian(3, size), BigEndian(3, time);
      var high: seq<byte>, zero: seq<byte> := [time / 0x100_0000 % 256], [0, 0, 0];
      tagStream.Write(first);
      tagStream.Write(length);
      OverwriteTwice(was, at, first, length);
      ghost var done: seq<byte> := first + length;
      tagStream.Write(low);
      OverwriteTwice(was, at, done, low);
      done := done + low;
      tagStream.Write(high);
      OverwriteTwice(was, at, done, high);
      done := done + high;
      tagStream.Write(zero);
      OverwriteTwice(was, at, done, zero);
      HeaderFields(kind, size, time, done);
    }

    method WritePtsToCache(size: int, cache: array<byte>, at: nat)
      requires at + PREVIOUS_TAG_SIZE <= cache.Length
      modifies tagStream, cache
      ensures cache[..] == Overwrite(old(cache[..]), at, BigEndian(4, size))
    {
      var ok := tagStream.Initialize(cache, at + PREVIOUS_TAG_SIZE);
      tagStream.Skip(at);
      tagStream.Write(BigEndian(4, size));
    }

    /** write_tag, which gathers the header, the body and its size. The body is `size` bytes of `tag` from `at` on. */
    method WriteTag(tag: array<byte>, at: nat, size: nat, ghost kind: byte, ghost time: int)
      requires Valid() && Outside(tag) && at + size <= tag.Length
      requires tagHeader[..] == HeaderBytes(kind, size, Masked(time))
      modifies tagStream, writer
      ensures writer.written == old(writer.written) + TagBytes(Tag(kind, time, tag[at..at + size]))
    {
      hide HeaderBytes, SizeBytes, Overwrite, BigEndian;
      var preSize := new byte[PREVIOUS_TAG_SIZE];
      ghost var was := preSize[..];
      WritePtsToCache(size + TAG_HEADER_SIZE, preSize, 0);
      WholeSize(was, size);
      WriteThree(Iovec(tagHeader, 0, TAG_HEADER_SIZE), Iovec(tag, at, size), Iovec(preSize, 0, PREVIOUS_TAG_SIZE));
    }

    /** The three buffers of a tag in one call of the writer. */
    method WriteThree(header: Iovec, body: Iovec, preSize: Iovec)
      requires IovecValid(header) && IovecValid(body) && IovecValid(preSize)
      modifies writer
      ensures writer.written == old(writer.written) + (header.base[header.start..header.start + header.len]
                                + body.base[body.start..body.start + body.len]
                                + preSize.base[preSize.start..preSize.start + preSize.len])
    {
      hide Gathered;
      var iovs := new Iovec[] [header, body, preSize];
      assert iovs[..3] == [header, body, preSize];
      GatheredThree(header, body, preSize);
      writer.WriteV(iovs, 3);
    }

    method WriteAudio(timestamp: int, data: array<byte>, at: nat, size: nat)
      requires Valid() && Outside(data) && at + size <= data.Length
      modifies tagStream, tagHeader, writer
      ensures writer.written == old(writer.written) + TagBytes(Tag(TAG_AUDIO, timestamp, data[at..at + size]))
    {
      WriteHeaderToCache(TAG_AUDIO, Masked(timestamp), size, tagHeader, 0);
      WriteTag(data, at, size, TAG_AUDIO, timestamp);
    }

    method WriteVideo(timestamp: int, data: array<byte>, at: nat, size: nat)
      requires Valid() && Outside(data) && at + size <= data.Length
      modifies tagStream, tagHeader, writer
      ensures writer.written == old(writer.written) + TagBytes(Tag(TAG_VIDEO, timestamp, data[at..at + size]))
    {
      WriteHeaderToCache(TAG_VIDEO, Masked(timestamp), size, tagHeader, 0);
      WriteTag(data, at, size, TAG_VIDEO, timestamp);
    }

    /** Metadata has time 0. */
    method WriteMetadata(kind: byte, data: array<byte>, at: nat, size: nat)
      requires Valid() && Outside(data) && at + size <= data.Length
      modifies tagStream, tagHeader, writer
      ensures writer.written == old(writer.written) + TagBytes(Tag(kind, 0, data[at..at + size]))
    {
      WriteHeaderToCache(kind, 0, size, tagHeader, 0);
      WriteTag(data, at, size, kind, 0);
    }

    /** Make the caches large enough for `count` messages, keeping those that already are. */
    method Reserve(count: nat)
      requires Valid()
      modifies this
      ensures Valid()
      ensures nbIovssCache >= 3 * count && nbTagHeaders >= count && nbPpts >= count
      ensures nbIovssCache >= old(nbIovssCache) && nbTagHeaders >= old(nbTagHeaders) && nbPpts >= old(nbPpts)
      ensures tagHeaders == old(tagHeaders) || fresh(tagHeaders)
      ensures ppts == old(ppts) || fresh(ppts)
      ensures iovssCache == old(iovssCache) || fresh(iovssCache)
    {
      if nbIovssCache < 3 * count {
        nbIovssCache := 3 * count;
        iovssCache := new Iovec[3 * count](_ => Iovec(tagHeader, 0, 0));
      }
      if nbTagHeaders < count {
        nbTagHeaders := count;
        tagHeaders := new byte[TAG_HEADER_SIZE * count];
      }
      if nbPpts < count {
        nbPpts := count;
        ppts := new byte[PREVIOUS_TAG_SIZE * count];
      }
    }

    ghost function Cached(): Caches
      reads this, tagHeaders, ppts, iovssCache
    {
      Caches(tagHeaders, ppts, tagHeaders[..], ppts[..], iovssCache[..])
    }

    /** Cache the header and the size of message `k`. */
    method CacheMessage(m: SharedMessage, k: nat)
      requires Valid() && Outside(m.payload) && Cached().Holds(k + 1)
      modifies tagStream, tagHeaders, ppts
      ensures var tag, was := old(TagOf(m)), old(Cached());
              && tagHeaders[..] == Overwrite(was.h, 11 * k, HeaderBytes(tag.kind, |tag.body|, Masked(tag.time)))
              && ppts[..] == Overwrite(was.s, 4 * k, SizeBytes(|tag.body|))
    {
      hide HeaderBytes, BigEndian, Overwrite;
      if m.messageType == TAG_AUDIO {
        WriteHeaderToCache(TAG_AUDIO, Masked(m.timestamp), m.payload.Length, tagHeaders, 11 * k);
      } else if m.messageType == TAG_VIDEO {
        WriteHeaderToCache(TAG_VIDEO, Masked(m.timestamp), m.payload.Length, tagHeaders, 11 * k);
      } else {
        WriteHeaderToCache(TAG_SCRIPT, 0, m.payload.Length, tagHeaders, 11 * k);
      }
      WritePtsToCache(TAG_HEADER_SIZE + m.payload.Length, ppts, 4 * k);
    }

    /** Cache message `k` and list its buffers; entries before it stay in place. */
    method ListMessage(m: SharedMessage, k: nat)
      requires Valid() && Outside(m.payload) && Cached().Holds(k + 1)
      modifies tagStream, tagHeaders, ppts, iovssCache
      ensures Cached().Holds(k + 1) && Listed(old(TagOf(m)), m.payload, k, Cached())
      ensures Cached().Keeps(old(Cached()), k)
    {
      hide HeaderBytes, BigEndian, SizeBytes, Overwrite;
      ghost var tag, was := TagOf(m), Cached();
      CacheMessage(m, k);
      Overwritten(was.h, 11 * k, HeaderBytes(tag.kind, |tag.body|, Masked(tag.time)));
      Overwritten(was.s, 4 * k, SizeBytes(|tag.body|));
      iovssCache[3 * k] := Iovec(tagHeaders, 11 * k, 11);
      iovssCache[3 * k + 1] := Iovec(m.payload, 0, m.payload.Length);
      iovssCache[3 * k + 2] := Iovec(ppts, 4 * k, 4);
    }

    /** List every message of the batch. */
    method ListAll(msgs: array<SharedMessage>)
      requires Valid() && forall i :: 0 <= i < msgs.Length ==> Outside(msgs[i].payload)
      requires Cached().Holds(msgs.Length)
      modifies tagStream, tagHeaders, ppts, iovssCache
      ensures AllListed(old(TagsOf(msgs[..])), msgs[..], msgs.Length, Cached())
    {
      hide Listed, TagOf;
      ghost var list, tags := msgs[..], TagsOf(msgs[..]);
      for k := 0 to msgs.Length
        invariant TagsOf(list) == tags
        invariant Cached().Holds(msgs.Length) && AllListed(tags, list, k, Cached())
      {
        ghost var was := Cached();
        TagsOfAt(list, k);
        ListMessage(msgs[k], k);
        StillListed(tags, list, k, was, Cached());
      }
    }

    method WriteBatch(msgs: array<SharedMessage>)
      requires Valid() && forall i :: 0 <= i < msgs.Length ==> Outside(msgs[i].payload)
      requires Cached().Holds(msgs.Length)
      modifies tagStream, tagHeaders, ppts, iovssCache, writer
      ensures writer.written == old(writer.written) + StreamBytes(old(TagsOf(msgs[..])))
    {
      hide AllListed, TagsOf;
      var count := msgs.Length;
      ghost var list, tags := msgs[..], TagsOf(msgs[..]);
      forall k | 0 <= k < count ensures list[k].payload[..] == tags[k].body {
        TagsOfAt(list, k);
      }
      ListAll(msgs);
      ListedGather(tags, list, count, Cached());
      assert tags[..count] == tags;
      writer.WriteV(iovssCache, 3 * count);
    }

    /** Main result: a batch writes the concatenation of the messages' tags, as writing them one by one does, for every
        list and whatever the caches held. */
    method WriteTags(msgs: array<SharedMessage>)
      requires Valid() && forall i :: 0 <= i < msgs.Length ==> Outside(msgs[i].payload)
      modifies this, tagStream, tagHeaders, ppts, iovssCache, writer
      ensures Valid()
      ensures (tagHeaders == old(tagHeaders) || fresh(tagHeaders)) && (ppts == old(ppts) || fresh(ppts))
      ensures writer.written == old(writer.written) + StreamBytes(old(TagsOf(msgs[..])))
    {
      Reserve(msgs.Length);
      WriteBatch(msgs);
    }
  }
}
