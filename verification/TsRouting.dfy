/**
 Where messages go: which PID carries which codec, what the tables on the wire announce for it, and which packets carry
 a clock. All of it is said in numbers of the wire and read from the packets, with a reader of the PMT that follows
 section 2.4.4.8 of ISO/IEC 13818-1.
 */
module TsRouting {
  import opened Bytes
  import opened TsWire
  import opened TsParse
  import opened TsPsi
  import opened TsDemux
  import opened TsReassembly
  import opened TsPacking
  import opened TsRun
  import opened TsCounters

  // ---------- which PID receives which messages ----------

  /** The stream ids of audio: 110x xxxx (table 2-22 of ISO/IEC 13818-1). */
  predicate HasAudioId(m: Message) { 0xC0 <= m.sid <= 0xDF }

  /** The audio messages with something to send while the audio codec was `ac`, in order. */
  function AudioFrames(ops: seq<Op>, ac: AudioCodec): seq<Frame> {
    if ops == [] then []
    else
      var op := ops[|ops| - 1];
      AudioFrames(ops[..|ops| - 1], ac)
      + (if op.Send? && HasAudioId(op.m) && op.m.payload != [] && op.ac == ac then [FrameOf(op.m)] else [])
  }

  /** All other messages with something to send while the video codec was AVC, in order. */
  function AvcFrames(ops: seq<Op>): seq<Frame> {
    if ops == [] then []
    else
      var op := ops[|ops| - 1];
      AvcFrames(ops[..|ops| - 1])
      + (if op.Send? && !HasAudioId(op.m) && op.m.payload != [] && op.vc.AVC? then [FrameOf(op.m)] else [])
  }

  /** What one PID should receive: H.264 on 0x100, AAC on 0x101, MP3 on 0x102, nothing anywhere else. */
  function ByCodec(ops: seq<Op>, pid: int): seq<Frame> {
    if pid == 0x100 then AvcFrames(ops)
    else if pid == 0x101 then AudioFrames(ops, AAC)
    else if pid == 0x102 then AudioFrames(ops, MP3)
    else []
  }

  lemma {:induction false} SentByCodec(ops: seq<Op>, pid: int)
    ensures Sent(ops, pid) == ByCodec(ops, pid)
    decreases |ops|
  {
    hide FrameOf;
    if ops != [] {
      SentByCodec(ops[..|ops| - 1], pid);
      var op := ops[|ops| - 1];
      if op.Send? { TargetIs(op.m, op.vc, op.ac); }
    }
  }

  lemma TargetIs(m: Message, vc: VideoCodec, ac: AudioCodec)
    ensures HasAudioId(m) && ac.AAC? ==> TargetPid(m, vc, ac) == 0x101 && TargetStream(m, vc, ac) == 0x0f
    ensures HasAudioId(m) && ac.MP3? ==> TargetPid(m, vc, ac) == 0x102 && TargetStream(m, vc, ac) == 0x04
    ensures HasAudioId(m) && !ac.AAC? && !ac.MP3? ==> TargetStream(m, vc, ac) == STREAM_RESERVED
    ensures !HasAudioId(m) && vc.AVC? ==> TargetPid(m, vc, ac) == 0x100 && TargetStream(m, vc, ac) == 0x1b
    ensures !HasAudioId(m) && !vc.AVC? ==> TargetStream(m, vc, ac) == STREAM_RESERVED
    ensures NoCodec(vc, ac) <==> !vc.AVC? && !ac.AAC? && !ac.MP3?
  {
  }

  /** What the demuxer delivered on a PID, and then what it still holds there. */
  function Arrived(d: AllResult, pid: int): seq<Frame> {
    Received(Frames(d.out), pid)
    + (if pid in d.pids && d.pids[pid].msg.Some? then [FrameOf(d.pids[pid].msg.value)] else [])
  }

  /** Main result: over every run, PID 0x101 receives exactly the audio messages sent with codec AAC, 0x102 those sent
      with MP3, 0x100 the other messages sent with codec AVC, each in order, and no other PID receives anything. */
  lemma EveryCodecOnItsPid(ops: seq<Op>, pid: int)
    requires forall i :: 0 <= i < |ops| && ops[i].Send? ==> HasOptionalHeader(ops[i].m)
    ensures var d := DecodeRun(map[], Run(NEW_MUX, ops).packets);
            d.status == Success && Arrived(d, pid) == ByCodec(ops, pid)
  {
    hide Run, DecodeRun, Frames, Received, Sent, FrameOf, ByCodec;
    EveryPidReceivesWhatWasSent(ops, pid);
    SentByCodec(ops, pid);
  }

  // ---------- what the tables announce ----------

  /** A program map: the PID of the clock and the streams with their types and PIDs. */
  datatype Pmt = Pmt(program: int, pcrPid: int, streams: seq<EsInfo>)

  /** The stream entries from `pos` to `end`. */
  function ReadStreams(d: seq<byte>, pos: nat, end: nat): Option<seq<EsInfo>>
    requires end <= |d|
    decreases |d| - pos
  {
    if pos == end then Some([])
    else if pos + 5 > end then None
    else
      var rest := ReadStreams(d, pos + 5 + Be16(d[pos + 3], d[pos + 4]) % 0x1000, end);
      if rest == None then None
      else Some([EsInfo(d[pos], Be16(d[pos + 1], d[pos + 2]) % 0x2000)] + rest.value)
  }

  /** A packet that holds a whole current program map section behind a pointer field of 0. */
  function ReadPmt(d: seq<byte>): Option<Pmt> {
    if |d| != PACKET_SIZE || d[0] != 0x47 || d[1] / 64 % 2 != 1 || d[3] / 16 % 4 != 1 || d[4] != 0 then None
    else if d[5] != 2 || d[6] / 128 != 1 || d[10] % 2 != 1 || d[11] != 0 || d[12] != 0 then None
    else
      var end := 8 + Be16(d[6], d[7]) % 0x1000 - 4;
      if end < 17 || end + 4 > |d| then None
      else
        var streams := ReadStreams(d, 17 + Be16(d[15], d[16]) % 0x1000, end);
        if streams == None then None
        else Some(Pmt(Be16(d[8], d[9]), Be16(d[13], d[14]) % 0x2000, streams.value))
  }

  /** The last packet on the PID of the PMT. */
  function LastPmt(packets: seq<seq<byte>>): Option<seq<byte>>
    requires WholePackets(packets)
  {
    if packets == [] then None
    else if PidOf(packets[|packets| - 1]) == 0x1001 then Some(packets[|packets| - 1])
    else LastPmt(packets[..|packets| - 1])
  }

  /** Stream types of table 2-34: H.264, AAC, MP3. */
  function TypeOn(pid: int): byte { if pid == 0x100 then 0x1b else if pid == 0x101 then 0x0f else 0x04 }

  /** The last PMT announces this PID with its stream type, and names as clock the H.264 PID if it announces that, or
      else this PID. */
  predicate AnnouncedBy(packets: seq<seq<byte>>, pid: int)
    requires WholePackets(packets)
  {
    LastPmt(packets).Some? && ReadPmt(LastPmt(packets).value).Some?
    && var pmt := ReadPmt(LastPmt(packets).value).value;
       && EsInfo(TypeOn(pid), pid) in pmt.streams
       && pmt.pcrPid == if EsInfo(0x1b, 0x100) in pmt.streams then 0x100 else pid
  }

  lemma {:induction false} StreamsRead(d: seq<byte>, pos: nat, infos: seq<EsInfo>)
    requires pos + 5 * |infos| <= |d|
    requires d[pos..pos + 5 * |infos|] == InfosBytes(infos)
    requires forall i :: 0 <= i < |infos| ==> 0 <= infos[i].pid < 0x2000
    ensures ReadStreams(d, pos, pos + 5 * |infos|) == Some(infos)
    decreases |infos|
  {
    hide Be16, InfoBytes;
    if infos != [] {
      var s, n := InfosBytes(infos), 5 * |infos|;
      assert s[..5] == InfoBytes(infos[0]) && s[5..] == InfosBytes(infos[1..]);
      assert d[pos..pos + n][..5] == d[pos..pos + 5] && d[pos..pos + n][5..] == d[pos + 5..pos + n];
      InfoRead(d, pos, infos[0]);
      StreamsRead(d, pos + 5, infos[1..]);
      assert infos == [infos[0]] + infos[1..];
    }
  }

  lemma SectionHeadOfPmt(infos: seq<EsInfo>, pcrPid: int)
    requires |infos| <= 2 && 0 <= pcrPid < 0x2000
    ensures var s := PmtSection(infos, pcrPid);
            && s[0] == 2 && s[1] / 128 == 1 && s[5] % 2 == 1 && s[6] == 0 && s[7] == 0 && Be16(s[3], s[4]) == 1
            && Be16(s[8], s[9]) % 0x2000 == pcrPid && Be16(s[10], s[11]) % 0x1000 == 0
            && Be16(s[1], s[2]) % 0x1000 == 13 + 5 * |infos| && s[12..] == InfosBytes(infos)
  {
    Pid13Read(pcrPid);
    HeadRead(0x02, 13 + 5 * |infos|);
    PmtLayout(infos, pcrPid);
    NoInfoBytes();
    hide InfosBytes, SectionHead, Pid13, Be16, PmtSection;
    var s := PmtSection(infos, pcrPid);
    var head, clock := s[..8], s[8..10];
    assert s[0] == head[0] && s[1] == head[1] && s[2] == head[2] && s[3] == head[3] && s[4] == head[4];
    assert s[5] == head[5] && s[6] == head[6] && s[7] == head[7] && s[8] == clock[0] && s[9] == clock[1];
  }

  lemma PmtLayout(infos: seq<EsInfo>, pcrPid: int)
    requires |infos| <= 2
    ensures var s := PmtSection(infos, pcrPid);
            && s[..8] == SectionHead(0x02, 13 + 5 * |infos|, 1) && s[8..10] == Pid13(pcrPid)
            && s[10] == 0xF0 && s[11] == 0 && s[12..] == InfosBytes(infos)
  {
    hide InfosBytes, SectionHead, Pid13;
  }

  lemma NoInfoBytes()
    ensures Be16(0xF0, 0) % 0x1000 == 0
  {
  }

  lemma HeadRead(tableId: byte, n: nat)
    requires n < 0x1000
    ensures var s := SectionHead(tableId, n, 1);
            && s[0] == tableId && s[1] / 128 == 1 && s[5] % 2 == 1 && s[6] == 0 && s[7] == 0 && Be16(s[3], s[4]) == 1
            && Be16(s[1], s[2]) % 0x1000 == n
  {
  }

  lemma Pid13Read(pid: int)
    requires 0 <= pid < 0x2000
    ensures Be16(Pid13(pid)[0], Pid13(pid)[1]) % 0x2000 == pid
  {
  }

  /** The programs from `pos` to `end`: their numbers and PIDs. */
  function ReadPrograms(d: seq<byte>, pos: nat, end: nat): Option<seq<(int, int)>>
    requires end <= |d|
    decreases |d| - pos
  {
    if pos == end then Some([])
    else if pos + 4 > end then None
    else
      var rest := ReadPrograms(d, pos + 4, end);
      if rest == None then None
      else Some([(Be16(d[pos], d[pos + 1]), Be16(d[pos + 2], d[pos + 3]) % 0x2000)] + rest.value)
  }

  /** A packet that holds a whole current program association section behind a pointer field of 0: its programs. */
  function ReadPat(d: seq<byte>): Option<seq<(int, int)>> {
    if |d| != PACKET_SIZE || d[0] != 0x47 || d[1] / 64 % 2 != 1 || d[3] / 16 % 4 != 1 || d[4] != 0 then None
    else if d[5] != 0 || d[6] / 128 != 1 || d[10] % 2 != 1 then None
    else
      var end := 8 + Be16(d[6], d[7]) % 0x1000 - 4;
      if end < 13 || end + 4 > |d| then None else ReadPrograms(d, 13, end)
  }

  lemma PatReadsBack()
    ensures ReadPat(PsiPacket(PAT_PID, PatSection())) == Some([(1, 0x1001)])
  {
    var section := PatSection();
    var d := PsiPacket(PAT_PID, section);
    PsiPacketParts(d, PAT_PID, section);
    PsiPacketHead(PAT_PID, section);
    HeadRead(0x00, 13);
    PatBytes();
    hide PsiPacket, PatSection, SectionHead, Be16, ReadPat;
    SectionPlaced(d, section);
    PatIs(d);
  }

  lemma PatIs(d: seq<byte>)
    requires |d| == PACKET_SIZE && d[0] == 0x47 && d[1] / 64 % 2 == 1 && d[3] / 16 % 4 == 1 && d[4] == 0
    requires d[5] == 0 && d[6] / 128 == 1 && Be16(d[6], d[7]) % 0x1000 == 13 && d[10] % 2 == 1
    requires Be16(d[13], d[14]) == 1 && Be16(d[15], d[16]) % 0x2000 == 0x1001
    ensures ReadPat(d) == Some([(1, 0x1001)])
  {
    hide Be16;
    assert ReadPrograms(d, 17, 17) == Some([]);
    assert ReadPrograms(d, 13, 17) == Some([(1, 0x1001)] + []);
    assert [(1, 0x1001)] + [] == [(1, 0x1001)];
  }

  lemma PatBytes()
    ensures var s, head := PatSection(), SectionHead(0x00, 13, 1);
            && s[0] == head[0] && s[1] == head[1] && s[2] == head[2] && s[5] == head[5]
            && Be16(s[8], s[9]) == 1 && Be16(s[10], s[11]) % 0x2000 == 0x1001
  {
  }

  /** The two tables that encode_pat_pmt writes, read. */
  lemma TablesOf(mux: Mux)
    requires !NoCodec(mux.vcodec, mux.acodec)
    ensures var tables := EncodePatPmt(mux).packets;
            && |tables| == 2 && WholePackets(tables) && PidOf(tables[0]) == 0 && PidOf(tables[1]) == 0x1001
            && ReadPat(tables[0]) == Some([(1, 0x1001)])
            && ReadPmt(tables[1]) == Some(Pmt(1, PcrPid(mux.vcodec, mux.acodec), Infos(mux.vcodec, mux.acodec)))
  {
    var infos, pcrPid := Infos(mux.vcodec, mux.acodec), PcrPid(mux.vcodec, mux.acodec);
    InfosInRange(mux.vcodec, mux.acodec);
    PatReadsBack();
    PmtReadsBack(infos, pcrPid);
    PsiPacketPid(PAT_PID, PatSection());
    PsiPacketPid(PMT_PID, PmtSection(infos, pcrPid));
    TablesWritten(mux);
    hide *;
    var tables := EncodePatPmt(mux).packets;
    assert tables[0] == PsiPacket(PAT_PID, PatSection()) && tables[1] == PsiPacket(PMT_PID, PmtSection(infos, pcrPid));
    TwoPackets(tables);
  }

  lemma TwoPackets(packets: seq<seq<byte>>)
    ensures |packets| == 2 && |packets[0]| == PACKET_SIZE && |packets[1]| == PACKET_SIZE ==> WholePackets(packets)
  {
  }

  lemma TablesWritten(mux: Mux)
    requires !NoCodec(mux.vcodec, mux.acodec)
    ensures EncodePatPmt(mux).packets
            == [PsiPacket(PAT_PID, PatSection()),
                PsiPacket(PMT_PID, PmtSection(Infos(mux.vcodec, mux.acodec), PcrPid(mux.vcodec, mux.acodec)))]
    ensures EncodePatPmt(mux).mux.vcodec == mux.vcodec && EncodePatPmt(mux).mux.acodec == mux.acodec
  {
    hide PsiPacket, PatSection, PmtSection, ApplyPmt, ApplyPat, Infos, PcrPid;
  }

  /** The tables that a call writes: program 1 with its PMT on 0x1001, and in it the enabled streams, audio first. */
  lemma TablesReadBack(mux: Mux)
    requires mux.vcodec.AVC? || mux.acodec.AAC? || mux.acodec.MP3?
    ensures var tables := EncodePatPmt(mux).packets;
            && |tables| == 2 && WholePackets(tables) && PidOf(tables[0]) == 0 && PidOf(tables[1]) == 0x1001
            && ReadPat(tables[0]) == Some([(1, 0x1001)])
            && ReadPmt(tables[1]).Some?
            && var pmt := ReadPmt(tables[1]).value;
               && pmt.program == 1
               && pmt.streams == (if mux.acodec.AAC? then [EsInfo(0x0f, 0x101)]
                                  else if mux.acodec.MP3? then [EsInfo(0x04, 0x102)] else [])
                                 + (if mux.vcodec.AVC? then [EsInfo(0x1b, 0x100)] else [])
               && pmt.pcrPid == if mux.vcodec.AVC? then 0x100 else if mux.acodec.AAC? then 0x101 else 0x102
  {
    hide EncodePatPmt, PidOf, ReadPmt, ReadPat;
    TablesOf(mux);
  }

  lemma PsiPacketHead(pid: int, section: seq<byte>)
    requires |section| <= 100 && 0 <= pid < 0x2000
    ensures var d := PsiPacket(pid, section);
            d[0] == 0x47 && d[1] / 64 % 2 == 1 && d[3] / 16 % 4 == 1 && d[4] == 0
  {
    hide Crc32.Crc, BigEndian;
  }

  /** The reader finds in the packet that encode_pat_pmt writes exactly its clock and streams. */
  lemma PmtReadsBack(infos: seq<EsInfo>, pcrPid: int)
    requires |infos| <= 2 && 0 <= pcrPid < 0x2000 && forall i :: 0 <= i < |infos| ==> 0 <= infos[i].pid < 0x2000
    ensures ReadPmt(PsiPacket(PMT_PID, PmtSection(infos, pcrPid))) == Some(Pmt(1, pcrPid, infos))
  {
    var section := PmtSection(infos, pcrPid);
    var d := PsiPacket(PMT_PID, section);
    PsiPacketParts(d, PMT_PID, section);
    PsiPacketHead(PMT_PID, section);
    SectionHeadOfPmt(infos, pcrPid);
    hide PsiPacket, PmtSection, InfosBytes, Be16, ReadStreams, ReadPmt;
    SectionPlaced(d, section);
    StreamsRead(d, 17, infos);
    PmtIs(d, infos, pcrPid);
  }

  lemma SectionPlaced(d: seq<byte>, section: seq<byte>)
    requires 12 <= |section| && 5 + |section| <= |d| && d[5..5 + |section|] == section
    ensures d[5] == section[0] && d[6] == section[1] && d[7] == section[2] && d[8] == section[3] && d[9] == section[4]
    ensures d[10] == section[5] && d[11] == section[6] && d[12] == section[7] && d[13] == section[8]
    ensures d[14] == section[9] && d[15] == section[10] && d[16] == section[11]
    ensures d[17..5 + |section|] == section[12..]
  {
    Within(d, 5, |section|, 12, |section|);
    var s := d[5..5 + |section|];
    assert s[0] == d[5] && s[1] == d[6] && s[2] == d[7] && s[3] == d[8] && s[4] == d[9] && s[5] == d[10];
    assert s[6] == d[11] && s[7] == d[12] && s[8] == d[13] && s[9] == d[14] && s[10] == d[15] && s[11] == d[16];
  }

  lemma PmtIs(d: seq<byte>, infos: seq<EsInfo>, pcrPid: int)
    requires |d| == PACKET_SIZE && |infos| <= 2
    requires d[0] == 0x47 && d[1] / 64 % 2 == 1 && d[3] / 16 % 4 == 1 && d[4] == 0
    requires d[5] == 2 && d[6] / 128 == 1 && d[10] % 2 == 1 && d[11] == 0 && d[12] == 0 && Be16(d[8], d[9]) == 1
    requires Be16(d[13], d[14]) % 0x2000 == pcrPid && Be16(d[15], d[16]) % 0x1000 == 0
    requires Be16(d[6], d[7]) % 0x1000 == 13 + 5 * |infos|
    requires ReadStreams(d, 17, 17 + 5 * |infos|) == Some(infos)
    ensures ReadPmt(d) == Some(Pmt(1, pcrPid, infos))
  {
    hide Be16, ReadStreams;
  }

  // ---------- one call ----------

  /** While a codec is enabled, the last PMT announces the codecs of the muxer. */
  predicate Announces(mux: Mux, before: seq<seq<byte>>)
    requires WholePackets(before)
  {
    !NoCodec(mux.vcodec, mux.acodec) ==>
      && LastPmt(before).Some?
      && ReadPmt(LastPmt(before).value)
         == Some(Pmt(1, PcrPid(mux.vcodec, mux.acodec), Infos(mux.vcodec, mux.acodec)))
  }

  lemma {:induction false} LastPmtAppend(a: seq<seq<byte>>, b: seq<seq<byte>>)
    requires WholePackets(a) && WholePackets(b) && forall i :: 0 <= i < |b| ==> PidOf(b[i]) != 0x1001
    ensures WholePackets(a + b) && LastPmt(a + b) == LastPmt(a)
    decreases |b|
  {
    hide PidOf;
    if b == [] {
      assert a + b == a;
    } else {
      var front := b[..|b| - 1];
      assert (a + b)[..|a + b| - 1] == a + front;
      LastPmtAppend(a, front);
    }
  }

  lemma PmtIsLast(mux: Mux, before: seq<seq<byte>>, pat: seq<byte>, pmt: seq<byte>)
    requires WholePackets(before) && |pat| == PACKET_SIZE && |pmt| == PACKET_SIZE
    requires PidOf(pat) == 0 && PidOf(pmt) == 0x1001
    requires ReadPmt(pmt) == Some(Pmt(1, PcrPid(mux.vcodec, mux.acodec), Infos(mux.vcodec, mux.acodec)))
    ensures WholePackets(before + [pat, pmt]) && Announces(mux, before + [pat, pmt])
    ensures !IsMediaPid(PidOf(pat)) && !IsMediaPid(PidOf(pmt))
  {
    hide PidOf, ReadPmt, Infos, PcrPid;
    var all := before + [pat, pmt];
    assert all[|all| - 1] == pmt;
  }

  /** Behind PAT and PMT, the last PMT announces the codecs. */
  lemma TablesAnnounce(mux: Mux, before: seq<seq<byte>>)
    requires WholePackets(before)
    ensures var r := EncodePatPmt(mux);
            && WholePackets(r.packets) && WholePackets(before + r.packets) && Announces(r.mux, before + r.packets)
            && (forall i :: 0 <= i < |r.packets| ==> !IsMediaPid(PidOf(r.packets[i])))
            && r.mux.vcodec == mux.vcodec && r.mux.acodec == mux.acodec
  {
    hide *;
    if NoCodec(mux.vcodec, mux.acodec) {
      NoTables(mux, before);
    } else {
      TablesOf(mux);
      TablesWritten(mux);
      var r := EncodePatPmt(mux);
      assert r.packets == [r.packets[0], r.packets[1]];
      PmtIsLast(r.mux, before, r.packets[0], r.packets[1]);
    }
  }

  lemma NoTables(mux: Mux, before: seq<seq<byte>>)
    requires NoCodec(mux.vcodec, mux.acodec) && WholePackets(before)
    ensures EncodePatPmt(mux) == MuxResult(NoStream, mux, []) && before + [] == before
    ensures WholePackets([]) && Announces(mux, before)
  {
  }

  /** The enabled stream of a message is announced. */
  lemma TargetAnnounced(m: Message, vc: VideoCodec, ac: AudioCodec, packets: seq<seq<byte>>)
    requires WholePackets(packets) && LastPmt(packets).Some?
    requires ReadPmt(LastPmt(packets).value) == Some(Pmt(1, PcrPid(vc, ac), Infos(vc, ac)))
    requires TargetStream(m, vc, ac) != STREAM_RESERVED
    ensures AnnouncedBy(packets, TargetPid(m, vc, ac))
  {
    hide ReadPmt, LastPmt;
    var infos := Infos(vc, ac);
    if m.IsAudio() {
      assert infos[0] == EsInfo(AudioStream(ac), AudioPid(ac));
    }
    if vc.AVC? {
      assert infos[|infos| - 1] == EsInfo(0x1b, 0x100);
    } else {
      assert infos == [EsInfo(AudioStream(ac), AudioPid(ac))] || infos == [];
    }
  }

  lemma PesAnnounced(mux: Mux, m: Message, vc: VideoCodec, ac: AudioCodec, before: seq<seq<byte>>)
    requires WholePackets(before) && Announces(mux, before)
    requires mux.vcodec == vc && mux.acodec == ac && !NoCodec(vc, ac)
    ensures var r := EncodePes(mux, m, TargetPid(m, vc, ac), TargetStream(m, vc, ac), VideoStream(vc) == STREAM_RESERVED);
            && WholePackets(r.packets) && AllAnnounced(before, r.packets)
            && WholePackets(before + r.packets) && Announces(r.mux, before + r.packets)
  {
    var target, stream := TargetPid(m, vc, ac), TargetStream(m, vc, ac);
    var r := EncodePes(mux, m, target, stream, VideoStream(vc) == STREAM_RESERVED);
    PesCounts(mux, m, target, stream, VideoStream(vc) == STREAM_RESERVED, 0x100);
    if r.packets == [] {
      assert before + [] == before;
    } else {
      TargetAnnounced(m, vc, ac, before);
      PesOnTarget(mux, m, target, stream, VideoStream(vc) == STREAM_RESERVED);
      hide PidOf, ReadPmt, LastPmt, EncodePes, Infos, PcrPid, TargetStream, TargetPid;
      LastPmtAppend(before, r.packets);
      forall i | 0 <= i < |r.packets|
        ensures AnnouncedBy(before + r.packets[..i], PidOf(r.packets[i]))
      {
        LastPmtAppend(before, r.packets[..i]);
      }
    }
  }

  lemma PesOnTarget(mux: Mux, m: Message, target: int, stream: byte, pureAudio: bool)
    requires 0 <= target < 0x1001
    ensures var r := EncodePes(mux, m, target, stream, pureAudio);
            && WholePackets(r.packets)
            && (forall i :: 0 <= i < |r.packets| ==> PidOf(r.packets[i]) == target != 0x1001)
            && r.mux.vcodec == mux.vcodec && r.mux.acodec == mux.acodec
  {
    var r := EncodePes(mux, m, target, stream, pureAudio);
    if r.packets != [] {
      forall i | 0 <= i < |r.packets| ensures PidOf(r.packets[i]) == target {
        MessageCounters(target, mux.pids[target].cc, m, PcrOf(m, pureAudio), i);
      }
    }
  }

  // ---------- every run ----------

  /** Every audio and video packet behind `before` is announced by the last PMT before it. */
  predicate AllAnnounced(before: seq<seq<byte>>, packets: seq<seq<byte>>)
    requires WholePackets(before) && WholePackets(packets)
  {
    forall i :: 0 <= i < |packets| && IsMediaPid(PidOf(packets[i])) ==>
      AnnouncedBy(before + packets[..i], PidOf(packets[i]))
  }

  lemma AllAnnouncedAppend(before: seq<seq<byte>>, a: seq<seq<byte>>, b: seq<seq<byte>>)
    requires WholePackets(before) && WholePackets(a) && WholePackets(b)
    requires AllAnnounced(before, a) && AllAnnounced(before + a, b)
    ensures WholePackets(a + b) && AllAnnounced(before, a + b)
  {
    hide PidOf, AnnouncedBy, IsMediaPid;
    forall i | 0 <= i < |a + b| && IsMediaPid(PidOf((a + b)[i]))
      ensures AnnouncedBy(before + (a + b)[..i], PidOf((a + b)[i]))
    {
      if i < |a| {
        assert (a + b)[..i] == a[..i];
      } else {
        assert before + (a + b)[..i] == before + a + b[..i - |a|];
        assert (a + b)[i] == b[i - |a|];
      }
    }
  }

  lemma StepAnnounces(mux: Mux, before: seq<seq<byte>>, op: Op)
    requires WholePackets(before) && Announces(mux, before)
    ensures var r := Step(mux, op);
            && WholePackets(r.packets) && AllAnnounced(before, r.packets)
            && WholePackets(before + r.packets) && Announces(r.mux, before + r.packets)
  {
    NothingAnnounced(before);
    ResetAnnounces(mux, before);
    hide EncodePatPmt, EncodePes, AllAnnounced, Announces, VideoStream, AudioStream, TargetPid, TargetStream;
    if op.Send? && !NoCodec(op.vc, op.ac) {
      var m, vc, ac := op.m, op.vc, op.ac;
      PsiAnnounced(mux, before, vc, ac);
      var psi := if mux.vcodec != vc || mux.acodec != ac then EncodePatPmt(mux.(vcodec := vc, acodec := ac))
                 else MuxResult(Muxed, mux, []);
      PesAnnounced(psi.mux, m, vc, ac, before + psi.packets);
      var pes := EncodePes(psi.mux, m, TargetPid(m, vc, ac), TargetStream(m, vc, ac),
                           VideoStream(vc) == STREAM_RESERVED);
      AllAnnouncedAppend(before, psi.packets, pes.packets);
      PacketsJoin(before, psi.packets, pes.packets);
    } else {
      PacketsJoin(before, [], []);
    }
  }

  lemma PacketsJoin(a: seq<seq<byte>>, b: seq<seq<byte>>, c: seq<seq<byte>>)
    ensures a + (b + c) == (a + b) + c && a + [] == a
  {
  }

  lemma ResetAnnounces(mux: Mux, before: seq<seq<byte>>)
    requires WholePackets(before)
    ensures Announces(mux.(vcodec := VideoReserved, acodec := AudioReserved1), before)
  {
  }

  /** The tables, or their absence when the codecs are the same. */
  lemma PsiAnnounced(mux: Mux, before: seq<seq<byte>>, vc: VideoCodec, ac: AudioCodec)
    requires WholePackets(before) && Announces(mux, before)
    ensures var psi := if mux.vcodec != vc || mux.acodec != ac then EncodePatPmt(mux.(vcodec := vc, acodec := ac))
                       else MuxResult(Muxed, mux, []);
            && WholePackets(psi.packets) && AllAnnounced(before, psi.packets)
            && WholePackets(before + psi.packets) && Announces(psi.mux, before + psi.packets)
            && psi.mux.vcodec == vc && psi.mux.acodec == ac
  {
    var mux1 := mux.(vcodec := vc, acodec := ac);
    TablesAnnounce(mux1, before);
    hide EncodePatPmt, Announces, PidOf, IsMediaPid, AnnouncedBy;
    PacketsJoin(before, [], []);
  }

  lemma {:induction false} RunAnnounces(mux: Mux, before: seq<seq<byte>>, ops: seq<Op>)
    requires WholePackets(before) && Announces(mux, before)
    ensures var r := Run(mux, ops); WholePackets(r.packets) && AllAnnounced(before, r.packets)
    decreases |ops|
  {
    hide Step, Announces, AllAnnounced;
    if ops == [] {
      NothingAnnounced(before);
    } else {
      StepAnnounces(mux, before, ops[0]);
      var first := Step(mux, ops[0]);
      RunAnnounces(first.mux, before + first.packets, ops[1..]);
      AllAnnouncedAppend(before, first.packets, Run(first.mux, ops[1..]).packets);
    }
  }

  lemma NothingAnnounced(before: seq<seq<byte>>)
    requires WholePackets(before)
    ensures AllAnnounced(before, [])
  {
  }

  /** Main result: over every run of a fresh muxer, whatever codec changes and resets, the last PMT before each audio or
      video packet announces its PID with the stream type of its codec, and names its clock. */
  lemma EveryPacketIsAnnounced(ops: seq<Op>, i: nat)
    requires i < |Run(NEW_MUX, ops).packets|
    ensures var packets := Run(NEW_MUX, ops).packets;
            && WholePackets(packets) && WholePackets(packets[..i])
            && (IsMediaPid(PidOf(packets[i])) ==> AnnouncedBy(packets[..i], PidOf(packets[i])))
  {
    RunAnnounces(NEW_MUX, [], ops);
    hide Run, PidOf, AnnouncedBy, IsMediaPid;
    assert [] + Run(NEW_MUX, ops).packets[..i] == Run(NEW_MUX, ops).packets[..i];
  }

  // ---------- when the tables are written ----------

  predicate HasCodec(vc: VideoCodec, ac: AudioCodec) { vc.AVC? || ac.AAC? || ac.MP3? }

  /** The codecs of the last message with a codec since the last reset. */
  function LastCodecs(ops: seq<Op>): Option<(VideoCodec, AudioCodec)> {
    if ops == [] then None
    else
      var last := ops[|ops| - 1];
      if last.Reset? then None
      else if HasCodec(last.vc, last.ac) then Some((last.vc, last.ac))
      else LastCodecs(ops[..|ops| - 1])
  }

  /** The muxer knows them. */
  predicate KnowsCodecs(mux: Mux, ops: seq<Op>) {
    match LastCodecs(ops)
    case Some((vc, ac)) => mux.vcodec == vc && mux.acodec == ac
    case None => mux.vcodec == VideoReserved && mux.acodec == AudioReserved1
  }

  lemma {:induction false} RunSnoc(mux: Mux, ops: seq<Op>, op: Op)
    ensures Run(mux, ops + [op]).mux == Step(Run(mux, ops).mux, op).mux
    decreases |ops|
  {
    hide Step;
    if ops == [] {
      assert [] + [op] == [op] && [op][1..] == [];
    } else {
      assert (ops + [op])[1..] == ops[1..] + [op];
      RunSnoc(Step(mux, ops[0]).mux, ops[1..], op);
    }
  }

  lemma StepCodecs(mux: Mux, ops: seq<Op>, op: Op)
    requires KnowsCodecs(mux, ops)
    ensures KnowsCodecs(Step(mux, op).mux, ops + [op])
  {
    hide EncodePatPmt, EncodePes, Encode, Run, HasCodec;
    assert (ops + [op])[..|ops|] == ops;
    if op.Send? { EncodeCodecs(mux, op.m, op.vc, op.ac); }
  }

  /** A message with a codec leaves its codecs in the muxer. */
  lemma EncodeCodecs(mux: Mux, m: Message, vc: VideoCodec, ac: AudioCodec)
    ensures var r := Encode(mux, m, vc, ac).mux;
            if HasCodec(vc, ac) then r.vcodec == vc && r.acodec == ac else r == mux
  {
    hide EncodePatPmt, EncodePes;
    PartsKeepCodecs(mux.(vcodec := vc, acodec := ac), m, TargetPid(m, vc, ac), TargetStream(m, vc, ac),
                    VideoStream(vc) == STREAM_RESERVED);
    PartsKeepCodecs(mux, m, TargetPid(m, vc, ac), TargetStream(m, vc, ac), VideoStream(vc) == STREAM_RESERVED);
  }

  lemma PartsKeepCodecs(mux: Mux, m: Message, pid: int, stream: byte, pureAudio: bool)
    ensures var psi := EncodePatPmt(mux).mux;
            && psi.vcodec == mux.vcodec && psi.acodec == mux.acodec
            && (var r := EncodePes(psi, m, pid, stream, pureAudio).mux; r.vcodec == mux.vcodec && r.acodec == mux.acodec)
            && (var r := EncodePes(mux, m, pid, stream, pureAudio).mux; r.vcodec == mux.vcodec && r.acodec == mux.acodec)
  {
    hide MessagePackets, PsiPacket, PatSection, PmtSection, ApplyPat, ApplyPmt, Infos, PcrPid, PcrOf;
  }

  lemma {:induction false} RunCodecs(ops: seq<Op>)
    ensures KnowsCodecs(Run(NEW_MUX, ops).mux, ops)
    decreases |ops|
  {
    hide Step;
    if ops != [] {
      hide KnowsCodecs;
      var front, last := ops[..|ops| - 1], ops[|ops| - 1];
      assert front + [last] == ops;
      RunCodecs(front);
      RunSnoc(NEW_MUX, front, last);
      StepCodecs(Run(NEW_MUX, front).mux, front, last);
    }
  }

  /** Whether a call writes tables depends on the codecs that the muxer has. */
  lemma StepTables(mux: Mux, m: Message, vc: VideoCodec, ac: AudioCodec)
    ensures var packets := Step(mux, Send(m, vc, ac)).packets;
            var due := HasCodec(vc, ac) && (mux.vcodec != vc || mux.acodec != ac);
            && WholePackets(packets) && (due ==> |packets| >= 2 && PidOf(packets[0]) == 0 && PidOf(packets[1]) == 0x1001)
            && forall i :: (if due then 2 else 0) <= i < |packets| ==> IsMediaPid(PidOf(packets[i]))
  {
    hide ClockIn, JumpIn, StartsUnit, PidOf, EncodePatPmt, EncodePes, TargetPid, TargetStream, IsMediaPid, ReadPat, ReadPmt;
    var mux1 := mux.(vcodec := vc, acodec := ac);
    var psi := if mux.vcodec != vc || mux.acodec != ac then EncodePatPmt(mux1) else MuxResult(Muxed, mux, []);
    var pes := EncodePes(psi.mux, m, TargetPid(m, vc, ac), TargetStream(m, vc, ac), VideoStream(vc) == STREAM_RESERVED);
    PesClock(psi.mux, m, vc, ac);
    if HasCodec(vc, ac) {
      TablesReadBack(mux1);
      var all := psi.packets + pes.packets;
      forall i | 0 <= i < |all|
        ensures |all[i]| == PACKET_SIZE && (|psi.packets| <= i ==> IsMediaPid(PidOf(all[i])))
      {
        if |psi.packets| <= i { assert all[i] == pes.packets[i - |psi.packets|]; }
      }
    }
  }

  /** Main result: behind any run, a call writes PAT and PMT first exactly when its codecs are not those of the last
      message since the last reset, and nothing but packets of its message otherwise and behind them. */
  lemma TablesExactly(ops: seq<Op>, m: Message, vc: VideoCodec, ac: AudioCodec)
    ensures var packets := Step(Run(NEW_MUX, ops).mux, Send(m, vc, ac)).packets;
            var due := HasCodec(vc, ac) && LastCodecs(ops) != Some((vc, ac));
            && WholePackets(packets) && (due ==> |packets| >= 2 && PidOf(packets[0]) == 0 && PidOf(packets[1]) == 0x1001)
            && forall i :: (if due then 2 else 0) <= i < |packets| ==> IsMediaPid(PidOf(packets[i]))
  {
    hide Run, Step, PidOf, IsMediaPid, WholePackets, LastCodecs;
    RunCodecs(ops);
    StepTables(Run(NEW_MUX, ops).mux, m, vc, ac);
  }

  // ---------- the clock ----------

  /** The clock reference in a packet's adaptation field. */
  function ClockIn(d: seq<byte>): Option<int>
    requires |d| == PACKET_SIZE
  {
    var control := d[3] / 16 % 4;
    if control != CONTROL_ADAPTION && control != CONTROL_BOTH then None
    else
      var af := DecodeAf(d, 4, control);
      if af.AfOk? then af.pcr else None
  }

  /** The discontinuity indicator of the adaptation field. */
  predicate JumpIn(d: seq<byte>)
    requires |d| == PACKET_SIZE
  {
    d[3] / 16 % 4 >= 2 && d[4] > 0 && d[5] / 128 == 1
  }

  /** A message asks for a clock: on its own, or as audio when there is no video. */
  predicate AsksForClock(m: Message, vc: VideoCodec) { m.writePcr || (HasAudioId(m) && !vc.AVC?) }

  /** Its clock on the wire: the decoding time modulo 2^33 and down to a multiple of 512, unless it is negative. */
  function ClockFor(m: Message, vc: VideoCodec): Option<int> {
    if AsksForClock(m, vc) && m.dts >= 0 then Some(m.dts % 0x2_0000_0000 / 512 * 512) else None
  }

  lemma PacketClock(d: seq<byte>, unitStart: bool, pid: int, cc: int, plan: Plan, discontinuity: bool, pcr: Option<int>)
    requires |d| == PACKET_SIZE && 0 <= pid < 0x2000 && AfSize(pcr, plan.reserved) <= 183 && (pcr.Some? ==> plan.hasAf)
    requires discontinuity ==> pcr.Some?
    requires var af := OptionalAf(plan, discontinuity, pcr);
             4 + |af| <= |d| && d[..4 + |af|] == Header(unitStart, pid, Control(plan.hasAf), cc) + af
    ensures StartsUnit(d) == unitStart
    ensures ClockIn(d) == if pcr.Some? then Some(pcr.value % 0x2_0000_0000 / 512 * 512) else None
    ensures JumpIn(d) <==> discontinuity
  {
    var af := OptionalAf(plan, discontinuity, pcr);
    var front := d[..4 + |af|];
    assert d[..4] == front[..4] == Header(unitStart, pid, Control(plan.hasAf), cc);
    HeaderFields(d, unitStart, pid, Control(plan.hasAf), cc);
    if plan.hasAf {
      assert d[4..4 + |af|] == front[4..] == af;
      AfSkipped(d, 4, discontinuity, pcr, plan.reserved);
      assert d[4] == front[4] == af[0] && d[5] == front[5] == af[1];
    }
    hide DecodeAf, Header, Be16, PcrBytes, Stuffing;
  }

  lemma {:induction false} NextPacketsClock(pid: int, cc: byte, rest: seq<byte>, i: nat)
    requires 0 <= pid < 0x2000 && i < |NextPackets(pid, cc, rest)|
    ensures var p := NextPackets(pid, cc, rest)[i]; ClockIn(p) == None && !JumpIn(p) && !StartsUnit(p)
    decreases i
  {
    PacketAt(pid, cc, rest, i);
    if i == 0 {
      var d, plan := NextPacket(pid, cc, rest), NextPlan(|rest|);
      NextPacketParts(d, pid, cc, rest);
      hide NextPackets, NextPacket, ClockIn, JumpIn, StartsUnit, Header, OptionalAf, NextPlan;
      PacketClock(d, false, pid, cc, plan, false, None);
    } else {
      hide *;
      NextPacketsClock(pid, NextCc(cc), rest[NextPlan(|rest|).left..], i - 1);
    }
  }

  /** The first packet of a message has its clock, no other packet has one. */
  lemma MessageClock(pid: int, cc: byte, m: Message, pcr: Option<int>, i: nat)
    requires m.payload != [] && 0 <= pid < 0x2000 && i < |MessagePackets(pid, cc, m, pcr)|
    ensures var p := MessagePackets(pid, cc, m, pcr)[i];
            && StartsUnit(p) == (i == 0)
            && ClockIn(p) == (if i == 0 && pcr.Some? then Some(pcr.value % 0x2_0000_0000 / 512 * 512) else None)
            && (JumpIn(p) <==> i == 0 && pcr.Some? && m.isDiscontinuity)
  {
    var k := FirstPlan(m, pcr).left;
    hide ClockIn, JumpIn, StartsUnit, FirstPacket, NextPackets, PlanPacket, Header;
    FirstPacketParts(FirstPacket(pid, cc, m, pcr), pid, cc, m, pcr);
    if i == 0 {
      PacketClock(FirstPacket(pid, cc, m, pcr), true, pid, cc, FirstPlan(m, pcr), pcr.Some? && m.isDiscontinuity, pcr);
    } else {
      NextPacketsClock(pid, NextCc(cc), m.payload[k..], i - 1);
    }
  }

  /** Main result: whatever state the muxer is in, the packets of a call carry a clock exactly in the first packet of a
      message that asks for one, the clock is its decoding time, and only such a packet announces a discontinuity. */
  lemma ClocksExactly(mux: Mux, m: Message, vc: VideoCodec, ac: AudioCodec, i: nat)
    requires i < |Step(mux, Send(m, vc, ac)).packets|
    ensures var packets := Step(mux, Send(m, vc, ac)).packets;
            && WholePackets(packets)
            && var p := packets[i];
               var first := IsMediaPid(PidOf(p)) && StartsUnit(p);
               && ClockIn(p) == (if first then ClockFor(m, vc) else None)
               && (JumpIn(p) <==> first && ClockFor(m, vc).Some? && m.isDiscontinuity)
  {
    var mux1 := mux.(vcodec := vc, acodec := ac);
    var psi := if mux.vcodec != vc || mux.acodec != ac then EncodePatPmt(mux1) else MuxResult(Muxed, mux, []);
    var target, stream := TargetPid(m, vc, ac), TargetStream(m, vc, ac);
    var pes := EncodePes(psi.mux, m, target, stream, VideoStream(vc) == STREAM_RESERVED);
    TablesHaveNoClock(mux1);
    PesClock(psi.mux, m, vc, ac);
    hide ClockIn, JumpIn, StartsUnit, PidOf, EncodePatPmt, EncodePes, TargetPid, TargetStream, IsMediaPid;
    if i >= |psi.packets| {
      assert (psi.packets + pes.packets)[i] == pes.packets[i - |psi.packets|];
    }
  }

  lemma TablesHaveNoClock(mux: Mux)
    ensures var packets := EncodePatPmt(mux).packets;
            forall i :: 0 <= i < |packets| ==>
              |packets[i]| == PACKET_SIZE && ClockIn(packets[i]) == None && !JumpIn(packets[i])
              && !IsMediaPid(PidOf(packets[i]))
  {
    if !NoCodec(mux.vcodec, mux.acodec) {
      var section := PmtSection(Infos(mux.vcodec, mux.acodec), PcrPid(mux.vcodec, mux.acodec));
      PsiPacketPid(PAT_PID, PatSection());
      PsiPacketPid(PMT_PID, section);
      PsiPacketHead(PAT_PID, PatSection());
      PsiPacketHead(PMT_PID, section);
      hide PsiPacket, PatSection, PmtSection, PidOf, Infos, PcrPid, DecodeAf, ApplyPmt, ApplyPat;
    }
  }

  lemma PesClock(mux: Mux, m: Message, vc: VideoCodec, ac: AudioCodec)
    ensures var packets := EncodePes(mux, m, TargetPid(m, vc, ac), TargetStream(m, vc, ac),
                                     VideoStream(vc) == STREAM_RESERVED).packets;
            forall i :: 0 <= i < |packets| ==>
              && |packets[i]| == PACKET_SIZE && IsMediaPid(PidOf(packets[i]))
              && ClockIn(packets[i]) == (if StartsUnit(packets[i]) then ClockFor(m, vc) else None)
              && (JumpIn(packets[i]) <==> StartsUnit(packets[i]) && ClockFor(m, vc).Some? && m.isDiscontinuity)
  {
    hide *;
    var target, stream, pureAudio := TargetPid(m, vc, ac), TargetStream(m, vc, ac), VideoStream(vc) == STREAM_RESERVED;
    var packets := EncodePes(mux, m, target, stream, pureAudio).packets;
    if packets != [] {
      PesIsMessage(mux, m, target, stream, pureAudio);
      TargetIsMedia(m, vc, ac);
      ClockIsPcr(m, vc);
      forall i | 0 <= i < |packets|
        ensures |packets[i]| == PACKET_SIZE && IsMediaPid(PidOf(packets[i]))
        ensures ClockIn(packets[i]) == (if StartsUnit(packets[i]) then ClockFor(m, vc) else None)
        ensures JumpIn(packets[i]) <==> StartsUnit(packets[i]) && ClockFor(m, vc).Some? && m.isDiscontinuity
      {
        MessageClock(target, mux.pids[target].cc, m, PcrOf(m, pureAudio), i);
        MessageCounters(target, mux.pids[target].cc, m, PcrOf(m, pureAudio), i);
      }
    }
  }

  lemma PesIsMessage(mux: Mux, m: Message, target: int, stream: byte, pureAudio: bool)
    requires EncodePes(mux, m, target, stream, pureAudio).packets != []
    ensures m.payload != [] && stream in {STREAM_H264, STREAM_MP3, STREAM_AAC} && target in mux.pids
    ensures EncodePes(mux, m, target, stream, pureAudio).packets
         == MessagePackets(target, mux.pids[target].cc, m, PcrOf(m, pureAudio))
  {
    hide MessagePackets, PcrOf;
  }

  lemma TargetIsMedia(m: Message, vc: VideoCodec, ac: AudioCodec)
    requires TargetStream(m, vc, ac) in {STREAM_H264, STREAM_MP3, STREAM_AAC}
    ensures IsMediaPid(TargetPid(m, vc, ac)) && 0 <= TargetPid(m, vc, ac) < 0x2000
  {
  }

  /** The muxer's clock, as it is on the wire. */
  lemma ClockIsPcr(m: Message, vc: VideoCodec)
    ensures var pcr := PcrOf(m, VideoStream(vc) == STREAM_RESERVED);
            ClockFor(m, vc) == if pcr.Some? then Some(pcr.value % 0x2_0000_0000 / 512 * 512) else None
  {
  }
}
