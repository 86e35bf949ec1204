/**
 The packets of the muxer in the eyes of a strict reader of ISO/IEC 13818-1, which also looks at the bits that the
 source's own decoder passes over; and what that decoder does demand of the packets it accepts.
 */
module TsStrict {
  import opened Bytes
  import opened TsWire
  import opened TsParse
  import opened TsPsi
  import opened TsDemux
  import opened TsReassembly
  import opened TsPacking
  import opened TsRun
  import opened TsCounters
  import opened TsRouting
  import opened TsLoss
  import Crc32

  // ---------- packet headers ----------

  /** Section 2.4.3.2: sync byte, no error, no priority, not scrambled, and with a payload. */
  predicate StrictHeader(d: seq<byte>)
    requires |d| == PACKET_SIZE
  {
    d[0] == 0x47 && d[1] / 128 == 0 && d[1] / 32 % 2 == 0 && d[3] / 64 == 0 && d[3] / 16 % 2 == 1
  }

  lemma HeaderIsStrict(d: seq<byte>, unitStart: bool, pid: int, control: int, cc: int)
    requires |d| == PACKET_SIZE && 0 <= pid < 0x2000 && (control == 1 || control == 3)
    requires d[..4] == Header(unitStart, pid, control, cc)
    ensures StrictHeader(d)
  {
    var h := Header(unitStart, pid, control, cc);
    assert d[0] == h[0] && d[1] == h[1] && d[3] == h[3];
  }

  /** Section 2.4.3.4: of the flags only discontinuity and clock, and stuffing bytes 0xFF up to the field's end. */
  predicate StrictField(d: seq<byte>)
    requires |d| == PACKET_SIZE
  {
    d[3] / 16 % 4 == 3 && d[4] > 0 ==>
      && d[4] < 183 && d[5] % 16 == 0 && d[5] / 32 % 4 == 0
      && var from := if d[5] / 16 % 2 == 1 then 12 else 6;
         from <= 5 + d[4] && forall i :: from <= i < 5 + d[4] ==> d[i] == 0xFF
  }

  lemma FieldIsStrict(d: seq<byte>, unitStart: bool, pid: int, cc: int, plan: Plan, discontinuity: bool, pcr: Option<int>)
    requires |d| == PACKET_SIZE && 0 <= pid < 0x2000 && AfSize(pcr, plan.reserved) <= 183 && (pcr.Some? ==> plan.hasAf)
    requires var af := OptionalAf(plan, discontinuity, pcr);
             4 + |af| <= |d| && d[..4 + |af|] == Header(unitStart, pid, Control(plan.hasAf), cc) + af
    ensures StrictHeader(d) && StrictField(d)
  {
    var af := OptionalAf(plan, discontinuity, pcr);
    var front := d[..4 + |af|];
    assert d[..4] == front[..4] == Header(unitStart, pid, Control(plan.hasAf), cc);
    HeaderIsStrict(d, unitStart, pid, Control(plan.hasAf), cc);
    HeaderFields(d, unitStart, pid, Control(plan.hasAf), cc);
    if plan.hasAf {
      forall i | 0 <= i < |af| ensures d[4 + i] == af[i] {
        assert d[4 + i] == front[4 + i];
      }
      assert d[4] == af[0] && d[5] == af[1];
      forall i | 4 + |af| - plan.reserved <= i < 4 + |af| ensures d[i] == 0xFF {
        assert d[4 + (i - 4)] == af[i - 4];
      }
    }
    hide Header, PcrBytes;
  }

  // ---------- the PES header ----------

  /** What a PES packet says in front of its payload, which starts at `start`. */
  datatype Pes = Pes(sid: byte, length: int, pts: int, dts: int, start: int)

  /** Section 2.4.3.7: four bits of prefix, 33 bits of time, three marker bits. */
  function StrictTime(d: seq<byte>, pos: int, prefix: int): Option<int>
    requires 0 <= pos && pos + 5 <= |d|
  {
    if d[pos] / 16 != prefix then None
    else match DecodeTime33(d, pos) case TimeOk(v) => Some(v) case TimeFailed => None
  }

  /** Start code, '10', no scrambling and no priority, only times announced, and exactly their bytes. */
  function StrictPes(d: seq<byte>, pos: int): Option<Pes>
    requires 0 <= pos
  {
    if pos + 19 > |d| && pos + 14 > |d| then None
    else if d[pos] != 0 || d[pos + 1] != 0 || d[pos + 2] != 1 || d[pos + 6] != 0x80 || d[pos + 7] % 64 != 0 then None
    else
      var sid, length := d[pos + 3], Be16(d[pos + 4], d[pos + 5]);
      if d[pos + 7] / 64 == 2 && d[pos + 8] == 5 then
        var pts := StrictTime(d, pos + 9, 2);
        if pts == None then None else Some(Pes(sid, length, pts.value, pts.value, pos + 14))
      else if d[pos + 7] / 64 == 3 && d[pos + 8] == 10 && pos + 19 <= |d| then
        var pts, dts := StrictTime(d, pos + 9, 3), StrictTime(d, pos + 14, 1);
        if pts == None || dts == None then None else Some(Pes(sid, length, pts.value, dts.value, pos + 19))
      else None
  }

  lemma TimePrefix(d: seq<byte>, pos: nat, fb: int, v: int)
    requires 0 < fb < 16 && pos + 5 <= |d| && d[pos..pos + 5] == Time33(fb, v)
    ensures StrictTime(d, pos, fb) == Some(v % 0x2_0000_0000)
  {
    Time33RoundTrip(d, pos, fb, v);
    hide DecodeTime33;
    var s := d[pos..pos + 5];
    assert d[pos] == s[0] == Time33(fb, v)[0];
  }

  lemma PesIsStrict(d: seq<byte>, pos: nat, m: Message)
    requires pos + 9 + TimesSize(m.dts, m.pts) <= |d|
    requires d[pos..pos + 9 + TimesSize(m.dts, m.pts)] == PesHeader(m.sid, |m.payload|, m.dts, m.pts)
    ensures StrictPes(d, pos) == Some(Pes(m.sid, PesLengthField(|m.payload|, m.dts, m.pts), m.pts % 0x2_0000_0000,
                                          m.dts % 0x2_0000_0000, pos + 9 + TimesSize(m.dts, m.pts)))
  {
    hide Time33, PesLengthField, StrictTime, Be16;
    PesStart(d, pos, m);
    var b := PesHeader(m.sid, |m.payload|, m.dts, m.pts);
    var s := d[pos..pos + |b|];
    assert s[6] == d[pos + 6];
    Within(d, pos, |b|, 9, 14);
    if m.dts == m.pts {
      assert b[9..14] == Time33(2, m.pts);
      TimePrefix(d, pos + 9, 2, m.pts);
    } else {
      Within(d, pos, |b|, 14, 19);
      assert b[9..14] == Time33(3, m.pts) && b[14..19] == Time33(1, m.dts);
      TimePrefix(d, pos + 9, 3, m.pts);
      TimePrefix(d, pos + 14, 1, m.dts);
    }
  }

  /** Where the payload of a packet begins. */
  function PayloadPos(d: seq<byte>): int
    requires |d| == PACKET_SIZE
  {
    if d[3] / 16 % 4 == 3 then 5 + d[4] as int else 4
  }

  // ---------- the packets of a message ----------

  predicate AllStrict(packets: seq<seq<byte>>) {
    forall i :: 0 <= i < |packets| ==> |packets[i]| == PACKET_SIZE && StrictHeader(packets[i]) && StrictField(packets[i])
  }

  lemma {:induction false} NextAreStrict(pid: int, cc: byte, rest: seq<byte>, i: nat)
    requires 0 <= pid < 0x2000 && i < |NextPackets(pid, cc, rest)|
    ensures var d := NextPackets(pid, cc, rest)[i]; StrictHeader(d) && StrictField(d)
    decreases i
  {
    hide NextPackets, NextPacket, StrictHeader, StrictField, Header, OptionalAf, NextPlan;
    PacketAt(pid, cc, rest, i);
    if i == 0 {
      NextPacketParts(NextPacket(pid, cc, rest), pid, cc, rest);
      FieldIsStrict(NextPacket(pid, cc, rest), false, pid, cc, NextPlan(|rest|), false, None);
    } else {
      NextAreStrict(pid, NextCc(cc), rest[NextPlan(|rest|).left..], i - 1);
    }
  }

  lemma MessageIsStrict(pid: int, cc: byte, m: Message, pcr: Option<int>)
    requires m.payload != [] && 0 <= pid < 0x2000
    ensures AllStrict(MessagePackets(pid, cc, m, pcr))
  {
    hide StrictHeader, StrictField, FirstPacket, NextPackets, Header, OptionalAf, FirstPlan, MessagePackets;
    var packets, d := MessagePackets(pid, cc, m, pcr), FirstPacket(pid, cc, m, pcr);
    var k := FirstPlan(m, pcr).left;
    MessageParts(pid, cc, m, pcr);
    FirstPacketParts(d, pid, cc, m, pcr);
    FieldIsStrict(d, true, pid, cc, FirstPlan(m, pcr), pcr.Some? && m.isDiscontinuity, pcr);
    forall i | 0 <= i < |packets| ensures StrictHeader(packets[i]) && StrictField(packets[i]) {
      if i > 0 { NextAreStrict(pid, NextCc(cc), m.payload[k..], i - 1); }
    }
  }

  lemma PsiIsStrict(pid: int, section: seq<byte>)
    requires |section| <= 100 && 0 <= pid < 0x2000
    ensures var d := PsiPacket(pid, section); StrictHeader(d) && StrictField(d)
  {
    hide PsiPacket, Header, StrictHeader;
    var d := PsiPacket(pid, section);
    PsiPacketParts(d, pid, section);
    HeaderIsStrict(d, true, pid, CONTROL_PAYLOAD, 0);
    HeaderFields(d, true, pid, CONTROL_PAYLOAD, 0);
  }

  /** The bytes that the packets carry: behind the PES header in the first one, behind the packet header in the
      others. */
  function Carried(packets: seq<seq<byte>>): Option<seq<byte>> {
    if packets == [] then Some([])
    else
      var d := packets[|packets| - 1];
      var front := Carried(packets[..|packets| - 1]);
      if front == None || |d| != PACKET_SIZE || PayloadPos(d) > |d| then None
      else if !StartsUnit(d) then Some(front.value + d[PayloadPos(d)..])
      else
        var pes := StrictPes(d, PayloadPos(d));
        if pes == None || pes.value.start > |d| then None else Some(front.value + d[pes.value.start..])
  }

  lemma CarriedSnoc(front: seq<seq<byte>>, d: seq<byte>)
    requires |d| == PACKET_SIZE && PayloadPos(d) <= |d|
    ensures Carried(front + [d])
            == var f := Carried(front);
               if f == None then None
               else if !StartsUnit(d) then Some(f.value + d[PayloadPos(d)..])
               else
                 var pes := StrictPes(d, PayloadPos(d));
                 if pes == None || pes.value.start > |d| then None else Some(f.value + d[pes.value.start..])
  {
    hide StrictPes, StartsUnit, PayloadPos;
    assert (front + [d])[..|front|] == front;
  }

  lemma FieldSize(d: seq<byte>, unitStart: bool, pid: int, cc: int, plan: Plan, discontinuity: bool, pcr: Option<int>)
    requires |d| == PACKET_SIZE && 0 <= pid < 0x2000 && AfSize(pcr, plan.reserved) <= 183 && (pcr.Some? ==> plan.hasAf)
    requires var af := OptionalAf(plan, discontinuity, pcr);
             4 + |af| <= |d| && d[..4 + |af|] == Header(unitStart, pid, Control(plan.hasAf), cc) + af
    ensures PayloadPos(d) == 4 + |OptionalAf(plan, discontinuity, pcr)| && StartsUnit(d) == unitStart
  {
    var af := OptionalAf(plan, discontinuity, pcr);
    var front := d[..4 + |af|];
    assert d[..4] == front[..4] == Header(unitStart, pid, Control(plan.hasAf), cc);
    HeaderFields(d, unitStart, pid, Control(plan.hasAf), cc);
    if plan.hasAf { assert d[4] == front[4] == af[0]; }
    hide Header, PcrBytes;
  }

  lemma FirstCarries(pid: int, cc: byte, m: Message, pcr: Option<int>)
    requires m.payload != [] && 0 <= pid < 0x2000
    ensures 0 < FirstPlan(m, pcr).left <= |m.payload|
    ensures var d := FirstPacket(pid, cc, m, pcr);
            var pes := StrictPes(d, PayloadPos(d));
            && PayloadPos(d) <= |d| && StartsUnit(d)
            && pes == Some(Pes(m.sid, PesLengthField(|m.payload|, m.dts, m.pts), m.pts % 0x2_0000_0000,
                               m.dts % 0x2_0000_0000, |d| - FirstPlan(m, pcr).left))
            && d[|d| - FirstPlan(m, pcr).left..] == m.payload[..FirstPlan(m, pcr).left]
  {
    hide FirstPacket, Header, OptionalAf, FirstPlan, StrictPes, PayloadPos, StartsUnit, PesHeader, PesLengthField;
    var d := FirstPacket(pid, cc, m, pcr);
    FirstPacketParts(d, pid, cc, m, pcr);
    FieldSize(d, true, pid, cc, FirstPlan(m, pcr), pcr.Some? && m.isDiscontinuity, pcr);
    PesIsStrict(d, PayloadPos(d), m);
  }

  lemma NextCarries(pid: int, cc: byte, rest: seq<byte>)
    requires rest != [] && 0 <= pid < 0x2000
    ensures 0 < NextPlan(|rest|).left <= |rest|
    ensures var d := NextPacket(pid, cc, rest);
            PayloadPos(d) == |d| - NextPlan(|rest|).left && !StartsUnit(d)
            && d[PayloadPos(d)..] == rest[..NextPlan(|rest|).left]
  {
    hide NextPacket, Header, OptionalAf, NextPlan, PayloadPos, StartsUnit;
    var d := NextPacket(pid, cc, rest);
    NextPacketParts(d, pid, cc, rest);
    FieldSize(d, false, pid, cc, NextPlan(|rest|), false, None);
  }

  /** The first `n` packets carry the payload up to where packet `n` starts. */
  lemma {:induction false} CarriedUpTo(pid: int, cc: byte, m: Message, pcr: Option<int>, n: nat)
    requires m.payload != [] && 0 <= pid < 0x2000 && 0 < n <= |MessagePackets(pid, cc, m, pcr)|
    ensures Carried(MessagePackets(pid, cc, m, pcr)[..n]) == Some(m.payload[..Start(m, pcr, n)])
    decreases n
  {
    hide MessagePackets, Carried, Start, FirstPlan, NextPlan, FirstPacket, NextPacket, PayloadPos, StartsUnit, StrictPes,
         AdvanceCc;
    var packets := MessagePackets(pid, cc, m, pcr);
    var front, d := packets[..n - 1], packets[n - 1];
    assert packets[..n] == front + [d];
    FirstPart(pid, cc, m, pcr);
    if n == 1 {
      FirstCarries(pid, cc, m, pcr);
      CarriedSnoc([], d);
      NothingCarried();
      assert front == [] && [] + m.payload[..Start(m, pcr, 1)] == m.payload[..Start(m, pcr, 1)];
    } else {
      CarriedUpTo(pid, cc, m, pcr, n - 1);
      PacketOf(pid, cc, m, pcr, n - 1);
      var s, e := Start(m, pcr, n - 1), Start(m, pcr, n);
      NextCarries(pid, AdvanceCc(cc, n - 1), m.payload[s..]);
      CarriedSnoc(front, d);
      assert m.payload[s..][..e - s] == m.payload[s..e];
      assert m.payload[..s] + m.payload[s..e] == m.payload[..e];
    }
  }

  lemma NothingCarried()
    ensures Carried([]) == Some([])
  {
  }

  /** Main result for one message: its packets are standard, the first has its PES header with id, length and times, and
      together they carry exactly its payload. */
  lemma MessageIsStandard(pid: int, cc: byte, m: Message, pcr: Option<int>)
    requires m.payload != [] && 0 <= pid < 0x2000
    ensures var packets := MessagePackets(pid, cc, m, pcr);
            && AllStrict(packets) && Carried(packets) == Some(m.payload)
            && var pes := StrictPes(packets[0], PayloadPos(packets[0]));
               && pes.Some? && pes.value.sid == m.sid
               && pes.value.pts == m.pts % 0x2_0000_0000 && pes.value.dts == m.dts % 0x2_0000_0000
               && (pes.value.length == 0 || pes.value.length == 3 + TimesSize(m.dts, m.pts) + |m.payload|)
               && (pes.value.length == 0 <==> 3 + TimesSize(m.dts, m.pts) + |m.payload| > 0xFFFF)
  {
    hide MessagePackets, Carried, Start, FirstPlan, FirstPacket, PayloadPos, StrictPes, AllStrict;
    var packets := MessagePackets(pid, cc, m, pcr);
    MessageIsStrict(pid, cc, m, pcr);
    CarriedUpTo(pid, cc, m, pcr, |packets|);
    ChunkIs(pid, cc, m, pcr, |packets| - 1);
    assert packets[..|packets|] == packets && m.payload[..|m.payload|] == m.payload;
    FirstPart(pid, cc, m, pcr);
    FirstCarries(pid, cc, m, pcr);
  }

  // ---------- every run ----------

  lemma AllStrictAppend(a: seq<seq<byte>>, b: seq<seq<byte>>)
    requires AllStrict(a) && AllStrict(b)
    ensures AllStrict(a + b)
  {
    hide StrictHeader, StrictField;
  }

  lemma TablesAreStrict(mux: Mux)
    ensures AllStrict(EncodePatPmt(mux).packets)
  {
    if !NoCodec(mux.vcodec, mux.acodec) {
      TablesWritten(mux);
      PsiIsStrict(PAT_PID, PatSection());
      PsiIsStrict(PMT_PID, PmtSection(Infos(mux.vcodec, mux.acodec), PcrPid(mux.vcodec, mux.acodec)));
      hide EncodePatPmt, PsiPacket, PatSection, PmtSection, StrictHeader, StrictField, Infos, PcrPid;
    }
  }

  lemma PesIsStandard(mux: Mux, m: Message, vc: VideoCodec, ac: AudioCodec)
    ensures var packets := EncodePes(mux, m, TargetPid(m, vc, ac), TargetStream(m, vc, ac),
                                     VideoStream(vc) == STREAM_RESERVED).packets;
            AllStrict(packets) && (packets != [] ==> Carried(packets) == Some(m.payload))
  {
    hide MessagePackets, AllStrict, Carried;
    NothingStrict();
    var target := TargetPid(m, vc, ac);
    if m.payload != [] && target in mux.pids {
      MessageIsStandard(target, mux.pids[target].cc, m, PcrOf(m, VideoStream(vc) == STREAM_RESERVED));
    }
  }

  lemma NothingStrict()
    ensures AllStrict([])
  {
  }

  lemma StepIsStrict(mux: Mux, op: Op)
    ensures AllStrict(Step(mux, op).packets)
  {
    hide AllStrict, EncodePatPmt, EncodePes, TargetPid, TargetStream;
    NothingStrict();
    if op.Send? && !NoCodec(op.vc, op.ac) {
      var m, vc, ac := op.m, op.vc, op.ac;
      var mux1 := mux.(vcodec := vc, acodec := ac);
      TablesAreStrict(mux1);
      var psi := if mux.vcodec != vc || mux.acodec != ac then EncodePatPmt(mux1) else MuxResult(Muxed, mux, []);
      PesIsStandard(psi.mux, m, vc, ac);
      AllStrictAppend(psi.packets, EncodePes(psi.mux, m, TargetPid(m, vc, ac), TargetStream(m, vc, ac),
                                             VideoStream(vc) == STREAM_RESERVED).packets);
    }
  }

  /** Main result: every packet of every run has a standard header and adaptation field. */
  lemma {:induction false} EveryRunIsStrict(mux: Mux, ops: seq<Op>)
    ensures AllStrict(Run(mux, ops).packets)
    decreases |ops|
  {
    hide Step, AllStrict;
    if ops == [] {
      NothingStrict();
    } else {
      StepIsStrict(mux, ops[0]);
      EveryRunIsStrict(Step(mux, ops[0]).mux, ops[1..]);
      AllStrictAppend(Step(mux, ops[0]).packets, Run(Step(mux, ops[0]).mux, ops[1..]).packets);
    }
  }

  // ---------- what the decoder demands ----------

  /** A packet is accepted only in sync, with a whole header, and with an adaptation field of a possible length. */
  lemma AcceptedPacket(pids: Pids, d: seq<byte>, pos: int)
    requires 0 <= pos && DecodePacket(pids, d, pos).status == Success
    ensures pos + 4 <= |d| && d[pos] == 0x47
    ensures var control := d[pos + 3] / 16 % 4;
            && (control >= 2 ==> pos + 6 <= |d|)
            && (control == 2 ==> d[pos + 4] == 183) && (control == 3 ==> d[pos + 4] <= 182)
  {
    hide DecodePayload, AfOptionalEnd, PcrAt;
  }

  /** A section is accepted only when its CRC, bit by bit over all of it, leaves 0; a section of length 0 has none. */
  lemma AcceptedSection(d: seq<byte>, pos: int, unitStart: bool, isPat: bool, pid: int, pids: Pids) returns (end: int)
    requires 0 <= pos && DecodePsi(d, pos, unitStart, isPat, pid, pids).status == Success
    ensures var start := if unitStart then pos + 1 else pos;
            && start + 3 <= |d|
            && (Be16(d[start + 1], d[start + 2]) % 0x1000 != 0 ==>
                  start + 3 <= end <= |d| - 4 && Be32(d[end], d[end + 1], d[end + 2], d[end + 3]) == Crc32.Crc(d[start..end]))
  {
    hide DecodePat, DecodePmt, Crc32.Crc, Be16, Be32;
    var start := if unitStart then pos + 1 else pos;
    var length := Be16(d[start + 1], d[start + 2]) % 0x1000;
    var r := if isPat then DecodePat(d, start + 3, length, pid, pids) else DecodePmt(d, start + 3, length, pid, pids);
    end := r.pos;
  }

  /** A section whose CRC is wrong is an error, but the table has already changed: the CRC is checked last. */
  lemma BadCrcStillApplies(d: seq<byte>, section: seq<byte>, isPat: bool, pid: int, pids: Pids, applied: Pids)
    requires 8 <= |section| <= 100 && |d| >= 9 + |section|
    requires d[5..5 + |section|] == section
    requires var p := 5 + |section|; Be32(d[p], d[p + 1], d[p + 2], d[p + 3]) != Crc32.Crc(section)
    requires Be16(d[6], d[7]) % 0x1000 == |section| + 1
    requires var r := if isPat then DecodePat(d, 8, |section| + 1, pid, pids)
                      else DecodePmt(d, 8, |section| + 1, pid, pids);
             r == PsiResult(Success, applied, 5 + |section|)
    ensures DecodePsi(d, 4, true, isPat, pid, pids) == PsiResult(CrcError, applied, 9 + |section|)
  {
    hide DecodePat, DecodePmt, Crc32.Crc, Be16, Be32;
  }

  /** Where the optional parts of an adaptation field end (section 2.4.3.5), in the field that ends at `end`; None when
      they do not fit into it. */
  function PartsEnd(d: seq<byte>, pos: int, end: int): Option<int>
    requires 0 <= pos && pos + 2 <= end <= |d|
  {
    var flags := d[pos + 1];
    var fixed := pos + 2 + flags / 16 % 2 * 6 + flags / 8 % 2 * 6 + flags / 4 % 2;
    var open := flags / 2 % 2 == 1;
    if fixed > end || (open && fixed >= end) then None
    else
      var ext := if open then fixed + 1 + d[fixed] else fixed;
      if ext > end || (flags % 2 == 1 && ext + 2 > end) then None
      else if flags % 2 == 0 then Some(ext)
      else if d[ext] < ExtensionSize(d[ext + 1]) || ext + 1 + d[ext] > end then None
      else Some(ext + 1 + d[ext])
  }

  /** The flags of the extension and what they announce. */
  function ExtensionSize(flags: byte): int { 1 + flags / 128 * 2 + flags / 64 % 2 * 3 + flags / 32 % 2 * 5 }

  lemma ExtensionIsRead(d: seq<byte>, flags: byte, ext: int)
    requires 0 <= ext <= |d|
    requires flags % 2 == 1 ==> ext + 2 <= |d| && ext + 1 + ExtensionSize(d[ext + 1]) <= |d|
    ensures AfExtensionEnd(d, flags, ext).Some?
  {
  }

  lemma PartsAreRead(d: seq<byte>, pos: int, end: int)
    requires 0 <= pos && pos + 2 <= end <= |d| && PartsEnd(d, pos, end).Some?
    ensures AfOptionalEnd(d, d[pos + 1], pos + 2).Some?
    ensures d[pos + 1] / 16 % 2 == 1 ==> pos + 8 <= end
  {
    hide AfExtensionEnd, ExtensionSize;
    var flags := d[pos + 1];
    var fixed := pos + 2 + flags / 16 % 2 * 6 + flags / 8 % 2 * 6 + flags / 4 % 2;
    ExtensionIsRead(d, flags, if flags / 2 % 2 == 1 then fixed + 1 + d[fixed] else fixed);
  }

  /** The 33 bits of a clock's base. */
  lemma ClockBits(d: seq<byte>, pos: int)
    requires 0 <= pos && pos + 6 <= |d|
    ensures PcrAt(d, pos) == d[pos] as int * 0x200_0000 + d[pos + 1] as int * 0x2_0000 + d[pos + 2] as int * 0x200
                             + d[pos + 3] as int * 2 + d[pos + 4] as int / 128
  {
  }

  /** Main result: an adaptation field of any muxer whose parts fit into it is passed over by its length, whatever parts
      it has, and gives its clock. */
  lemma AnyFieldDecodes(d: seq<byte>, pos: int, control: int)
    requires 0 <= pos && pos + 2 <= |d| && pos + 1 + d[pos] as int <= |d|
    requires (control == 3 && d[pos] <= 182) || (control == 2 && d[pos] == 183)
    requires d[pos] > 0 ==> PartsEnd(d, pos, pos + 1 + d[pos]).Some?
    ensures var clock := d[pos] > 0 && d[pos + 1] / 16 % 2 == 1;
            && (clock ==> pos + 8 <= |d|)
            && DecodeAf(d, pos, control)
               == AfOk(pos + 1 + d[pos],
                       if clock then Some(d[pos + 2] as int * 0x200_0000 + d[pos + 3] as int * 0x2_0000
                                          + d[pos + 4] as int * 0x200 + d[pos + 5] as int * 2 + d[pos + 6] as int / 128)
                       else None)
  {
    hide PartsEnd, AfOptionalEnd, PcrAt;
    if d[pos] > 0 {
      PartsAreRead(d, pos, pos + 1 + d[pos]);
      if d[pos + 1] / 16 % 2 == 1 { ClockBits(d, pos + 2); }
    }
  }

  /** A unit starts only with 00 00 01. */
  lemma AcceptedUnit(d: seq<byte>, pos: int, cc: byte)
    requires 0 < pos && 0 < |d| && DecodePes(d, pos, true, cc, None).status == Success
    ensures pos + 6 <= |d| && d[pos] == 0 && d[pos + 1] == 0 && d[pos + 2] == 1
  {
    StartCodeIs(d[pos], d[pos + 1], d[pos + 2]);
    hide DecodePesOptional, Dump, Be24;
  }

  lemma StartCodeIs(a: byte, b: byte, c: byte)
    ensures Be24(a, b, c) == 1 <==> a == 0 && b == 0 && c == 1
  {
  }

  /** Units without an optional header: everything behind the length, whatever that says, is the start of the message;
      padding has none. */
  lemma HeaderlessUnit(d: seq<byte>, pos: int, cc: byte)
    requires 0 < pos && pos + 6 < |d| && d[pos] == 0 && d[pos + 1] == 0 && d[pos + 2] == 1
    ensures d[pos + 3] in {0xbc, 0xbf, 0xf0, 0xf1, 0xff, 0xf2, 0xf8} ==>
              DecodePes(d, pos, true, cc, None)
              == PesResult(Success, Some(FRESH_MESSAGE.(sid := d[pos + 3], cc := cc, payload := d[pos + 6..])), None, |d|)
    ensures d[pos + 3] == 0xbe ==>
              DecodePes(d, pos, true, cc, None)
              == PesResult(Success, Some(FRESH_MESSAGE.(sid := d[pos + 3], cc := cc)), None, |d|)
  {
    hide DecodePesOptional, Be24;
    StartCodeIs(d[pos], d[pos + 1], d[pos + 2]);
    assert [] + d[pos + 6..] == d[pos + 6..] == d[pos + 6..pos + 6 + (|d| - (pos + 6))];
  }

  /** The bytes of the optional fields that the flags announce (section 2.4.3.7). */
  function OptionalSize(flags: byte): int {
    (if flags / 64 == 3 then 10 else 5) + flags / 32 % 2 * 6 + flags / 16 % 2 * 3 + flags / 8 % 2 + flags / 4 % 2
    + flags / 2 % 2 * 2
  }

  lemma OptionalIsRequired(flags: byte)
    requires flags / 64 >= 2 && flags % 2 == 0
    ensures PesRequired(flags) == OptionalSize(flags) && !Flag(flags, 1)
  {
  }

  /** The times that any PES header gives, with or without a dts. */
  function TimesAt(d: seq<byte>, pos: int, flags: byte): Option<(int, int)>
    requires 0 <= pos && pos + 10 <= |d|
  {
    if flags / 64 == 2 then
      var pts := StrictTime(d, pos, 2);
      if pts == None then None else Some((pts.value, pts.value))
    else if flags / 64 == 3 then
      var pts, dts := StrictTime(d, pos, 3), StrictTime(d, pos + 5, 1);
      if pts == None || dts == None then None else Some((pts.value, dts.value))
    else None
  }

  lemma OptionalTimes(d: seq<byte>, pos: int, length: int, m: Message)
    requires 0 <= pos && pos + 13 <= |d| && 0 <= length && TimesAt(d, pos + 3, d[pos + 1]).Some?
    requires d[pos + 1] % 2 == 0 && OptionalSize(d[pos + 1]) <= d[pos + 2] && pos + 3 + d[pos + 2] as int <= |d|
    ensures var times, left := TimesAt(d, pos + 3, d[pos + 1]).value, length - 3 - d[pos + 2];
            DecodePesOptional(d, pos, length, m)
            == PesHeaderOk(m.(pts := times.0, dts := times.1,
                              pesLength := if length == 0 then m.pesLength else if left > 0 then left else 0),
                           pos + 3 + d[pos + 2])
  {
    OptionalIsRequired(d[pos + 1]);
    hide PesRequired, OptionalSize, DecodeTime33, Flag;
  }

  /** Main result: a unit of any muxer with times, whatever its flags, other fields (but no extension) and stuffing,
      starts the message of its id and times, with the bytes behind its header up to the announced length; a length
      that ends inside the header counts as none. */
  lemma AnyUnitStarts(d: seq<byte>, pos: int, m: Message)
    requires 0 < pos && pos + 19 <= |d| && d[pos] == 0 && d[pos + 1] == 0 && d[pos + 2] == 1
    requires !IsRawStreamId(d[pos + 3]) && d[pos + 3] != PADDING_STREAM_ID && m.payload == [] && m.pesLength == 0
    requires TimesAt(d, pos + 9, d[pos + 7]).Some? && d[pos + 7] % 2 == 0
    requires OptionalSize(d[pos + 7]) <= d[pos + 8] && pos + 9 + d[pos + 8] as int <= |d|
    ensures var times, start := TimesAt(d, pos + 9, d[pos + 7]).value, pos + 9 + d[pos + 8];
            var length := Be16(d[pos + 4], d[pos + 5]) - 3 - d[pos + 8];
            var n := if length > 0 then Min(|d| - start, length) else |d| - start;
            DecodeUnitStart(d, pos, m)
            == PesResult(Success, Some(m.(sid := d[pos + 3], pts := times.0, dts := times.1,
                                          pesLength := if length > 0 then length else 0, payload := d[start..start + n])),
                         None, start + n)
  {
    hide DecodePesOptional, Be24, TimesAt, OptionalSize, IsRawStreamId;
    StartCodeIs(d[pos], d[pos + 1], d[pos + 2]);
    var start, all := pos + 9 + d[pos + 8], Be16(d[pos + 4], d[pos + 5]);
    OptionalTimes(d, pos + 6, all, m.(sid := d[pos + 3]));
    var length := all - 3 - d[pos + 8];
    var n := if length > 0 then Min(|d| - start, length) else |d| - start;
    assert [] + d[start..start + n] == d[start..start + n];
    assert n == 0 ==> d[start..start + n] == [];
  }

  /** A PES header is passed over by its announced length, whatever its optional parts, and the payload starts there. */
  lemma PayloadBehindHeader(d: seq<byte>, pos: int, length: int, m: Message)
    requires 0 <= pos && 0 <= length && DecodePesOptional(d, pos, length, m).PesHeaderOk?
    ensures pos + 3 <= |d|
    ensures var r := DecodePesOptional(d, pos, length, m);
            PesRequired(d[pos + 1]) <= d[pos + 2] ==> r.pos == pos + 3 + d[pos + 2] as int <= |d|
  {
    hide DecodeTime33, PesRequired;
  }

  // ---------- tables of other muxers ----------

  lemma {:induction false} AnyStreamsDecode(d: seq<byte>, pos: nat, end: nat, pids: Pids)
    requires end <= |d| && ReadStreams(d, pos, end).Some?
    ensures pos <= end
    ensures DecodeInfos(d, pos, end, pids) == PsiResult(Success, ApplyInfos(pids, ReadStreams(d, pos, end).value), end)
    decreases |d| - pos
  {
    hide Be16, ApplyInfo;
    if pos != end {
      var info, n := EsInfo(d[pos], Be16(d[pos + 1], d[pos + 2]) % 0x2000), Be16(d[pos + 3], d[pos + 4]) % 0x1000;
      AnyStreamsDecode(d, pos + 5 + n, end, ApplyInfo(pids, info));
    }
  }

  /** Main result: a program map of any muxer, with any descriptors and streams, whose CRC is right, enters exactly its
      streams and its own PID in the table. */
  lemma AnyPmtDecodes(d: seq<byte>, pid: int, pids: Pids)
    requires ReadPmt(d).Some?
    requires var end := 4 + Be16(d[6], d[7]) % 0x1000;
             Be32(d[end], d[end + 1], d[end + 2], d[end + 3]) == Crc32.Crc(d[5..end])
    ensures DecodePsi(d, 4, true, false, pid, pids)
            == PsiResult(Success, ApplyPmt(pids, ReadPmt(d).value.streams, pid), |d|)
  {
    hide Be16, Be32, Crc32.Crc, ReadStreams, DecodeInfos, ApplyInfos, SetPid;
    var length, skip := Be16(d[6], d[7]) % 0x1000, Be16(d[15], d[16]) % 0x1000;
    AnyStreamsDecode(d, 17 + skip, 4 + length, pids);
    PmtSteps(d, length, skip, pid, pids);
  }

  lemma PmtSteps(d: seq<byte>, length: nat, skip: nat, pid: int, pids: Pids)
    requires |d| == PACKET_SIZE && 13 <= length && 8 + length <= |d| && 17 + skip <= 4 + length
    requires skip == Be16(d[15], d[16]) % 0x1000
    ensures DecodePmt(d, 8, length, pid, pids)
            == var r := DecodeInfos(d, 17 + skip, 4 + length, pids);
               if r.status != Success then r else r.(pids := SetPid(r.pids, pid, TsWire.ApplyPMT, STREAM_RESERVED))
  {
    hide Be16, DecodeInfos, SetPid;
  }

  /** The table after the programs of an association section. */
  function ApplyPrograms(pids: Pids, programs: seq<(int, int)>): Pids
    decreases |programs|
  {
    if programs == [] then pids
    else ApplyPrograms(SetPid(pids, programs[0].1, TsWire.ApplyPMT, STREAM_RESERVED), programs[1..])
  }

  lemma {:induction false} AnyProgramsDecode(d: seq<byte>, pos: nat, end: nat, pids: Pids)
    requires end <= |d| && ReadPrograms(d, pos, end).Some?
    ensures pos <= end
    ensures DecodePrograms(d, pos, end - pos, pids)
            == PsiResult(Success, ApplyPrograms(pids, ReadPrograms(d, pos, end).value), end)
    decreases |d| - pos
  {
    hide Be16, SetPid;
    if pos != end {
      AnyProgramsDecode(d, pos + 4, end,
                        SetPid(pids, Be16(d[pos + 2], d[pos + 3]) % 0x2000, TsWire.ApplyPMT, STREAM_RESERVED));
    }
  }

  /** Main result: a program association of any muxer, whose CRC is right, enters exactly its programs and its own
      PID. */
  lemma AnyPatDecodes(d: seq<byte>, pids: Pids)
    requires ReadPat(d).Some?
    requires var end := 4 + Be16(d[6], d[7]) % 0x1000;
             Be32(d[end], d[end + 1], d[end + 2], d[end + 3]) == Crc32.Crc(d[5..end])
    ensures DecodePsi(d, 4, true, true, PAT_PID, pids)
            == PsiResult(Success, SetPid(ApplyPrograms(pids, ReadPat(d).value), PAT_PID, TsWire.ApplyPAT, STREAM_RESERVED),
                         |d|)
  {
    hide Be16, Be32, Crc32.Crc, ReadPrograms, DecodePrograms, ApplyPrograms, SetPid;
    AnyProgramsDecode(d, 13, 4 + Be16(d[6], d[7]) % 0x1000, pids);
  }

  /** Which stream types the decoder takes for video and audio: H.264 and MPEG-4, AAC and MP3; any other is left out. */
  lemma StreamKinds(stream: byte)
    ensures StreamApply(stream) == ApplyVideo <==> stream == 0x1b || stream == 0x10
    ensures StreamApply(stream) == ApplyAudio <==> stream == 0x0f || stream == 0x04
    ensures StreamApply(stream) == ApplyReserved <==> stream !in {0x1b, 0x10, 0x0f, 0x04}
  {
  }
}
