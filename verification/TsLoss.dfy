/**
 What becomes of a message when packets are lost: the counter test of SrsTsPayloadPES::decode on any bytes, and whole
 messages of which any packets are missing.
 */
module TsLoss {
  import opened Bytes
  import opened TsWire
  import opened TsParse
  import opened TsPsi
  import opened TsDemux
  import opened TsReassembly

  // ---------- one packet ----------

  /** A new unit starts before the announced end of the held message. */
  predicate CutsShort(p: Message, unitStart: bool) { unitStart && |p.payload| < p.pesLength }

  /** The counter follows that of the held message. */
  predicate InLine(held: int, cc: int) { cc == (held + 1) % 16 }

  /** The counter reads as an old one; behind 15 none does. */
  predicate ReadsAsLate(held: int, cc: int) { cc <= held < 15 }

  /** Main result for one packet: whatever the bytes, what happens to a held message. It is kept unchanged exactly when
      the counter reads as an old one, it is thrown away exactly when the counter is another one that does not follow
      (or a new unit cuts it short), and otherwise it goes on with the bytes of this packet or is delivered. */
  lemma CounterDecides(d: seq<byte>, pos: int, unitStart: bool, cc: byte, p: Message)
    requires 0 < pos && 0 < |d| && p.payload != [] && p.cc < 16 && cc < 16
    ensures var r := DecodePes(d, pos, unitStart, cc, Some(p));
            && (CutsShort(p, unitStart) || (!InLine(p.cc, cc) && !ReadsAsLate(p.cc, cc))
                <==> r.msg == None && r.out == None)
            && (!CutsShort(p, unitStart) && ReadsAsLate(p.cc, cc) <==> r.msg == Some(p))
            && (r.msg == None && r.out == None ==> r.status == Success && r.pos == 0)
            && (r.msg == Some(p) ==> r == PesResult(Success, Some(p), None, |d|))
            && (r.out.Some? ==> r.msg == None)
  {
    hide DecodeUnitStart;
  }

  /** What a packet in line adds: a unit start or a complete message delivers what is held; any other packet adds its
      bytes, up to the announced length, and delivers the message when that is reached. */
  lemma InLineAdds(d: seq<byte>, pos: int, unitStart: bool, cc: byte, p: Message)
    requires 0 < pos <= |d| && p.payload != [] && p.cc < 16 && cc < 16
    requires InLine(p.cc, cc) && !CutsShort(p, unitStart)
    ensures var r := DecodePes(d, pos, unitStart, cc, Some(p));
            var n := if p.pesLength > 0 then Min(|d| - pos, p.pesLength - |p.payload|) else |d| - pos;
            if unitStart || (0 < p.pesLength <= |p.payload|) then
              r == PesResult(Success, None, Some(p.(cc := cc)), 0)
            else
              var q := p.(cc := cc, payload := p.payload + d[pos..pos + n]);
              r == if 0 < p.pesLength <= |q.payload| then PesResult(Success, None, Some(q), pos + n)
                   else PesResult(Success, Some(q), None, pos + n)
  {
    hide DecodeUnitStart;
    assert p.payload + [] == p.payload;
    assert pos == |d| ==> d[pos..pos] == [];
  }

  /** Held bytes grow, and a message is delivered, only when the packet's counter follows the held one. */
  lemma GrowsOnlyInLine(d: seq<byte>, pos: int, unitStart: bool, cc: byte, p: Message)
    requires 0 < pos && 0 < |d| && p.payload != [] && p.cc < 16 && cc < 16
    ensures var r := DecodePes(d, pos, unitStart, cc, Some(p));
            && (r.out.Some? ==> InLine(p.cc, cc) && !CutsShort(p, unitStart) && p.payload <= r.out.value.payload)
            && (r.msg.Some? && r.msg != Some(p) ==>
                  InLine(p.cc, cc) && !CutsShort(p, unitStart) && p.payload <= r.msg.value.payload)
  {
    CounterDecides(d, pos, unitStart, cc, p);
    hide DecodeUnitStart;
  }

  // ---------- counters of held messages ----------

  /** Every held message has a four-bit counter. */
  predicate SmallCounters(pids: Pids) { forall pid :: pid in pids && pids[pid].msg.Some? ==> pids[pid].msg.value.cc < 16 }

  lemma SetPidKeepsSmall(pids: Pids, pid: int, apply: Apply, stream: byte)
    requires SmallCounters(pids)
    ensures SmallCounters(SetPid(pids, pid, apply, stream))
  {
  }

  lemma {:induction false} ProgramsKeepSmall(d: seq<byte>, pos: int, left: int, pids: Pids)
    requires 0 <= pos && SmallCounters(pids)
    ensures SmallCounters(DecodePrograms(d, pos, left, pids).pids)
    decreases left
  {
    hide SmallCounters, SetPid;
    if left > 0 && Has(d, pos, 4) {
      var pid := Be16(d[pos + 2], d[pos + 3]) % 0x2000;
      SetPidKeepsSmall(pids, pid, TsWire.ApplyPMT, STREAM_RESERVED);
      ProgramsKeepSmall(d, pos + 4, left - 4, SetPid(pids, pid, TsWire.ApplyPMT, STREAM_RESERVED));
    }
  }

  lemma {:induction false} InfosKeepSmall(d: seq<byte>, pos: int, end: int, pids: Pids)
    requires 0 <= pos && SmallCounters(pids)
    ensures SmallCounters(DecodeInfos(d, pos, end, pids).pids)
    decreases end - pos
  {
    hide SmallCounters, SetPid;
    if pos < end && Has(d, pos, 5) {
      var info := EsInfo(d[pos], Be16(d[pos + 1], d[pos + 2]) % 0x2000);
      var infoLength := Be16(d[pos + 3], d[pos + 4]) % 0x1000;
      SetPidKeepsSmall(pids, info.pid, StreamApply(info.stream), info.stream);
      InfosKeepSmall(d, pos + 5 + infoLength, end, ApplyInfo(pids, info));
    }
  }

  lemma PsiKeepsSmall(d: seq<byte>, pos: int, unitStart: bool, isPat: bool, pid: int, pids: Pids)
    requires 0 <= pos && SmallCounters(pids)
    ensures SmallCounters(DecodePsi(d, pos, unitStart, isPat, pid, pids).pids)
  {
    hide DecodeTable, SmallCounters;
    TableKeepsSmall(d, if unitStart then pos + 1 else pos, isPat, pid, pids);
  }

  lemma TableKeepsSmall(d: seq<byte>, start: int, isPat: bool, pid: int, pids: Pids)
    requires 0 <= start && SmallCounters(pids)
    ensures SmallCounters(DecodeTable(d, start, isPat, pid, pids).pids)
  {
    hide DecodePat, DecodePmt, SmallCounters, Crc32.Crc, Be16, Be32;
    if Has(d, start, 3) {
      var length := Be16(d[start + 1], d[start + 2]) % 0x1000;
      if isPat {
        PatKeepsSmall(d, start + 3, length, pid, pids);
      } else {
        PmtKeepsSmall(d, start + 3, length, pid, pids);
      }
    }
  }

  lemma PatKeepsSmall(d: seq<byte>, pos: int, length: int, pid: int, pids: Pids)
    requires 0 <= pos && SmallCounters(pids)
    ensures SmallCounters(DecodePat(d, pos, length, pid, pids).pids)
  {
    ProgramsKeepSmall(d, pos + 5, length - 9, pids);
    SetPidKeepsSmall(DecodePrograms(d, pos + 5, length - 9, pids).pids, pid, TsWire.ApplyPAT, STREAM_RESERVED);
    hide SmallCounters, SetPid, DecodePrograms;
  }

  lemma PmtKeepsSmall(d: seq<byte>, pos: int, length: int, pid: int, pids: Pids)
    requires 0 <= pos && SmallCounters(pids)
    ensures SmallCounters(DecodePmt(d, pos, length, pid, pids).pids)
  {
    hide SmallCounters, SetPid, DecodeInfos;
    if Has(d, pos, 9) {
      var p := pos + 9 + Be16(d[pos + 7], d[pos + 8]) % 0x1000;
      var end := p + length - 4 - 9 - Be16(d[pos + 7], d[pos + 8]) % 0x1000;
      InfosKeepSmall(d, p, end, pids);
      SetPidKeepsSmall(DecodeInfos(d, p, end, pids).pids, pid, TsWire.ApplyPMT, STREAM_RESERVED);
    }
  }

  lemma PesKeepsSmall(d: seq<byte>, pos: int, unitStart: bool, cc: byte, pending: Option<Message>)
    requires 0 < pos && 0 < |d| && cc < 16 && (pending.Some? ==> pending.value.cc < 16)
    ensures var r := DecodePes(d, pos, unitStart, cc, pending); r.msg.Some? ==> r.msg.value.cc < 16
  {
    UnitStartKeepsCc(d, pos, (if pending.Some? then pending.value else FRESH_MESSAGE).(cc := cc));
    hide DecodeUnitStart;
  }

  lemma UnitStartKeepsCc(d: seq<byte>, pos: int, m: Message)
    requires 0 <= pos
    ensures var r := DecodeUnitStart(d, pos, m); r.msg.Some? ==> r.msg.value.cc == m.cc
  {
    hide DecodeTime33, PesRequired;
  }

  lemma PacketKeepsSmall(pids: Pids, d: seq<byte>, pos: int)
    requires 0 <= pos && SmallCounters(pids)
    ensures SmallCounters(DecodePacket(pids, d, pos).pids)
  {
    hide DecodePsi, DecodePes, DecodeAf;
    if Has(d, pos, 4) {
      var pid := Be16(d[pos + 1], d[pos + 2]) % 0x2000;
      var control := d[pos + 3] / 16 % 4;
      var af := if control == CONTROL_ADAPTION || control == CONTROL_BOTH then DecodeAf(d, pos + 4, control)
                else AfOk(pos + 4, None);
      if af.AfOk? {
        PsiKeepsSmall(d, af.pos, Flag(d[pos + 1], 64), true, pid, pids);
        PsiKeepsSmall(d, af.pos, Flag(d[pos + 1], 64), false, pid, pids);
        if pid in pids {
          PesKeepsSmall(d, af.pos, Flag(d[pos + 1], 64), d[pos + 3] % 16, pids[pid].msg);
        }
      }
    }
  }

  /** Whatever is decoded, every held message keeps a four-bit counter. */
  lemma {:induction false} CountersStaySmall(pids: Pids, d: seq<byte>, pos: int)
    requires 0 <= pos && SmallCounters(pids)
    ensures SmallCounters(DecodeAll(pids, d, pos).pids)
    decreases Live(pids), |d| - pos
  {
    hide DecodePacket, SmallCounters;
    if pos < |d| {
      PacketKeepsSmall(pids, d, pos);
      PacketProgress(pids, d, pos);
      var r := DecodePacket(pids, d, pos);
      if r.status == Success && r.pos < |d| {
        CountersStaySmall(r.pids, d, r.pos);
      }
    }
  }

  // ---------- the packets of a message ----------

  /** How many payload bytes the first `i` continuation packets take from `n`. */
  function Skip(n: nat, i: nat): (k: nat)
    ensures k <= n
    decreases i
  {
    if i == 0 || n == 0 then 0
    else
      PlanFillsPacket(4, false, n);
      NextPlan(n).left + Skip(n - NextPlan(n).left, i - 1)
  }

  /** Where the payload of packet `i` starts. */
  function Start(m: Message, pcr: Option<int>, i: nat): (k: nat)
    requires m.payload != []
    ensures k <= |m.payload|
  {
    PlanFillsPacket(FirstBase(m, pcr), pcr.Some?, |m.payload|);
    if i == 0 then 0 else FirstPlan(m, pcr).left + Skip(|m.payload| - FirstPlan(m, pcr).left, i - 1)
  }

  lemma {:induction false} NextPacketAt(pid: int, cc: byte, rest: seq<byte>, i: nat)
    requires i < |NextPackets(pid, cc, rest)|
    ensures Skip(|rest|, i) < |rest|
    ensures NextPackets(pid, cc, rest)[i] == NextPacket(pid, AdvanceCc(cc, i), rest[Skip(|rest|, i)..])
    ensures Skip(|rest|, i) + NextPlan(|rest| - Skip(|rest|, i)).left == Skip(|rest|, i + 1)
    ensures i + 1 == |NextPackets(pid, cc, rest)| ==> Skip(|rest|, i + 1) == |rest|
    decreases i
  {
    hide *;
    PacketsFrom(pid, cc, rest);
    var n := NextPlan(|rest|).left;
    SkipFrom(|rest|, i);
    SkipFrom(|rest|, i + 1);
    NextCcAdvance(cc, i);
    assert rest[0..] == rest;
    var tail := NextPackets(pid, NextCc(cc), rest[n..]);
    Behind(NextPacket(pid, cc, rest), tail, i);
    if i > 0 {
      var b := rest[n..];
      assert |b| == |rest| - n;
      NextPacketAt(pid, NextCc(cc), b, i - 1);
      Dropped(rest, n, Skip(|b|, i - 1));
    }
  }

  lemma Behind(first: seq<byte>, tail: seq<seq<byte>>, i: nat)
    requires i <= |tail|
    ensures |[first] + tail| == |tail| + 1 && ([first] + tail)[i] == if i == 0 then first else tail[i - 1]
  {
  }

  lemma PacketsFrom(pid: int, cc: byte, rest: seq<byte>)
    ensures rest == [] ==> NextPackets(pid, cc, rest) == []
    ensures rest != [] ==>
              var n := NextPlan(|rest|).left;
              && 0 < n <= |rest|
              && NextPackets(pid, cc, rest) == [NextPacket(pid, cc, rest)] + NextPackets(pid, NextCc(cc), rest[n..])
              && (n == |rest| <==> NextPackets(pid, NextCc(cc), rest[n..]) == [])
  {
    if rest != [] { NextPlanFills(|rest|); }
    hide NextPacket, NextPlan;
  }

  lemma SkipFrom(n: nat, i: nat)
    requires n > 0
    ensures 0 < NextPlan(n).left <= n
    ensures Skip(n, i) == if i == 0 then 0 else NextPlan(n).left + Skip(n - NextPlan(n).left, i - 1)
    ensures i == 1 ==> Skip(n, i) == NextPlan(n).left
  {
    NextPlanFills(n);
    hide NextPlan;
  }

  lemma Dropped(s: seq<byte>, a: nat, b: nat)
    requires a + b <= |s|
    ensures s[a..][b..] == s[a + b..]
  {
  }

  lemma NextCcAdvance(cc: byte, i: nat)
    ensures AdvanceCc(cc, 0) == cc && (i > 0 ==> AdvanceCc(NextCc(cc), i - 1) == AdvanceCc(cc, i))
  {
  }

  /** Packet `i` of a message behind the first one. */
  lemma PacketOf(pid: int, cc: byte, m: Message, pcr: Option<int>, i: nat)
    requires m.payload != [] && 0 < i < |MessagePackets(pid, cc, m, pcr)|
    ensures Start(m, pcr, i) < |m.payload|
    ensures MessagePackets(pid, cc, m, pcr)[i] == NextPacket(pid, AdvanceCc(cc, i), m.payload[Start(m, pcr, i)..])
    ensures Start(m, pcr, i) + NextPlan(|m.payload| - Start(m, pcr, i)).left == Start(m, pcr, i + 1)
    ensures i + 1 == |MessagePackets(pid, cc, m, pcr)| ==> Start(m, pcr, i + 1) == |m.payload|
  {
    hide *;
    MessageParts(pid, cc, m, pcr);
    StartIs(m, pcr, i);
    StartIs(m, pcr, i + 1);
    NextCcAdvance(cc, i);
    var k := FirstPlan(m, pcr).left;
    var b := m.payload[k..];
    assert |b| == |m.payload| - k;
    Behind(FirstPacket(pid, cc, m, pcr), NextPackets(pid, NextCc(cc), b), i);
    NextPacketAt(pid, NextCc(cc), b, i - 1);
    Dropped(m.payload, k, Skip(|b|, i - 1));
  }

  lemma MessageParts(pid: int, cc: byte, m: Message, pcr: Option<int>)
    requires m.payload != []
    ensures 0 < FirstPlan(m, pcr).left <= |m.payload|
    ensures MessagePackets(pid, cc, m, pcr)
            == [FirstPacket(pid, cc, m, pcr)] + NextPackets(pid, NextCc(cc), m.payload[FirstPlan(m, pcr).left..])
  {
    PlanFillsPacket(FirstBase(m, pcr), pcr.Some?, |m.payload|);
    hide FirstPacket, NextPackets, PlanPacket;
  }

  lemma StartIs(m: Message, pcr: Option<int>, i: nat)
    requires m.payload != [] && i > 0
    ensures FirstPlan(m, pcr).left <= |m.payload|
    ensures Start(m, pcr, i) == FirstPlan(m, pcr).left + Skip(|m.payload| - FirstPlan(m, pcr).left, i - 1)
  {
    PlanFillsPacket(FirstBase(m, pcr), pcr.Some?, |m.payload|);
    hide PlanPacket, Skip;
  }

  /** The first packet's part. */
  lemma FirstPart(pid: int, cc: byte, m: Message, pcr: Option<int>)
    requires m.payload != []
    ensures Start(m, pcr, 0) == 0 && Start(m, pcr, 1) == FirstPlan(m, pcr).left > 0
    ensures MessagePackets(pid, cc, m, pcr)[0] == FirstPacket(pid, cc, m, pcr)
    ensures |MessagePackets(pid, cc, m, pcr)| == 1 ==> Start(m, pcr, 1) == |m.payload|
  {
    PlanFillsPacket(FirstBase(m, pcr), pcr.Some?, |m.payload|);
    hide FirstPacket, PlanPacket, NextPacket;
  }

  /** The payload bytes of packet `i`. */
  function Chunk(m: Message, pcr: Option<int>, i: nat): seq<byte>
    requires m.payload != []
  {
    if Start(m, pcr, i) <= Start(m, pcr, i + 1) then m.payload[Start(m, pcr, i)..Start(m, pcr, i + 1)] else []
  }

  lemma ChunkIs(pid: int, cc: byte, m: Message, pcr: Option<int>, i: nat)
    requires m.payload != [] && i < |MessagePackets(pid, cc, m, pcr)|
    ensures 0 <= Start(m, pcr, i) < Start(m, pcr, i + 1) <= |m.payload|
    ensures Chunk(m, pcr, i) == m.payload[Start(m, pcr, i)..Start(m, pcr, i + 1)] != []
    ensures i + 1 == |MessagePackets(pid, cc, m, pcr)| ==> Start(m, pcr, i + 1) == |m.payload|
  {
    hide MessagePackets, Start, NextPlan, FirstPlan;
    FirstPart(pid, cc, m, pcr);
    if i > 0 {
      PacketOf(pid, cc, m, pcr, i);
      PlanFillsPacket(4, false, |m.payload| - Start(m, pcr, i));
      NextPlanFills(|m.payload| - Start(m, pcr, i));
    }
  }

  lemma NextPlanFills(n: nat)
    requires n > 0
    ensures 0 < NextPlan(n).left <= n
  {
    PlanFillsPacket(4, false, n);
  }

  function ChunksOf(m: Message, pcr: Option<int>, taken: seq<nat>): seq<byte>
    requires m.payload != []
  {
    if taken == [] then []
    else ChunksOf(m, pcr, taken[..|taken| - 1]) + Chunk(m, pcr, taken[|taken| - 1])
  }

  // ---------- the receiver ----------

  /** The packets of the message taken so far, or the message is thrown away, or delivered. */
  datatype Receiver = Holding(taken: seq<nat>) | Thrown | Done(taken: seq<nat>)

  /** What packet `j` does. A message of announced length is delivered when all its bytes are there. */
  function Take(m: Message, pcr: Option<int>, cc: byte, r: Receiver, j: nat): Receiver
    requires m.payload != [] && (r.Holding? ==> r.taken != [])
  {
    if !r.Holding? then r
    else
      var last := r.taken[|r.taken| - 1];
      if InLine((cc + last) % 16, (cc + j) % 16) then
        var taken := r.taken + [j];
        if 0 < AwaitedLength(m) <= |ChunksOf(m, pcr, taken)| then Done(taken) else Holding(taken)
      else if ReadsAsLate((cc + last) % 16, (cc + j) % 16) then r
      else Thrown
  }

  function First(m: Message, pcr: Option<int>): Receiver
    requires m.payload != []
  {
    if 0 < AwaitedLength(m) <= |ChunksOf(m, pcr, [0])| then Done([0]) else Holding([0])
  }

  /** The packets `js` behind the first one arrive, in order. */
  function TakeAll(m: Message, pcr: Option<int>, cc: byte, js: seq<nat>): (r: Receiver)
    requires m.payload != []
    ensures r.Holding? || r.Done? ==> r.taken != []
  {
    if js == [] then First(m, pcr)
    else Take(m, pcr, cc, TakeAll(m, pcr, cc, js[..|js| - 1]), js[|js| - 1])
  }

  /** Decoding one stream per packet, going on behind errors. */
  function DecodeEach(pids: Pids, packets: seq<seq<byte>>): (Pids, seq<Delivered>) {
    if packets == [] then (pids, [])
    else
      var front := DecodeEach(pids, packets[..|packets| - 1]);
      var one := DecodeAll(front.0, packets[|packets| - 1], 0);
      (one.pids, front.1 + one.out)
  }

  /** The held message: the header fields of `m` and the bytes that came. */
  function Gathered(m: Message, cc: int, bytes: seq<byte>): Message {
    Message(m.sid, m.dts % 0x2_0000_0000, m.pts % 0x2_0000_0000, AwaitedLength(m), cc % 16, false, false, bytes)
  }

  // ---------- one packet of the message arrives ----------

  /** Strictly increasing, and below `n`. */
  predicate Increasing(js: seq<nat>, n: nat) {
    && (forall i :: 0 <= i < |js| ==> js[i] < n)
    && (forall i, j :: 0 <= i < j < |js| ==> js[i] < js[j])
  }

  /** A packet that throws the held message away is parsed again, as if nothing had been held. */
  lemma RewindsToNothing(pids: Pids, d: seq<byte>, pids1: Pids)
    requires |d| > 0 && DecodePacket(pids, d, 0) == PacketResult(Success, pids1, 0, None)
    ensures DecodeAll(pids, d, 0) == DecodeAll(pids1, d, 0)
  {
    hide DecodePacket;
    assert [] + DecodeAll(pids1, d, 0).out == DecodeAll(pids1, d, 0).out;
  }

  lemma FailsAtOnce(pids: Pids, d: seq<byte>, pids1: Pids, pos: int)
    requires |d| > 0 && DecodePacket(pids, d, 0) == PacketResult(PesError, pids1, pos, None)
    ensures DecodeAll(pids, d, 0) == AllResult(PesError, pids1, [])
  {
    hide DecodePacket;
  }

  /** How a continuation packet reaches the PES decoder. */
  lemma ContinuationDispatch(pids: Pids, pid: int, c: byte, rest: seq<byte>) returns (pos: int)
    requires IsMedia(pids, pid) && rest != []
    ensures var d := NextPacket(pid, c, rest);
            && 0 < pos && 0 < NextPlan(|rest|).left <= |rest| && pos + NextPlan(|rest|).left == |d| == PACKET_SIZE
            && d[pos..] == rest[..NextPlan(|rest|).left]
            && var r := DecodePes(d, pos, false, c % 16, pids[pid].msg);
               DecodePacket(pids, d, 0)
               == PacketResult(r.status, SetMsg(pids, pid, r.msg), r.pos,
                               if r.out.Some? then Some(Delivered(pid, r.out.value)) else None)
  {
    hide NextPacket, DecodePacket, DecodePayload, DecodePes, AfBytes, Header, NextPlan;
    var d, plan := NextPacket(pid, c, rest), NextPlan(|rest|);
    NextPacketParts(d, pid, c, rest);
    pos := 4 + |OptionalAf(plan, false, None)|;
    PacketDispatch(pids, d, false, pid, c, plan, false, None);
    PayloadIsPes(pids, d, pos, false, pid, c % 16, DecodePes(d, pos, false, c % 16, pids[pid].msg));
  }

  /** With nothing held, a continuation packet is an error and leaves a message without bytes. */
  lemma ContinuationLost(pids: Pids, pid: int, c: byte, rest: seq<byte>)
    requires IsMedia(pids, pid) && rest != [] && pids[pid].msg in {None, Some(FRESH_MESSAGE)}
    ensures DecodeAll(pids, NextPacket(pid, c, rest), 0)
            == AllResult(PesError, SetMsg(pids, pid, Some(FRESH_MESSAGE)), [])
  {
    hide NextPacket, DecodePacket, DecodeAll, NextPlan, DecodeUnitStart;
    var pos := ContinuationDispatch(pids, pid, c, rest);
    var d := NextPacket(pid, c, rest);
    FailsAtOnce(pids, d, SetMsg(pids, pid, Some(FRESH_MESSAGE)), pos);
  }

  lemma ContinuationLate(pids: Pids, pid: int, c: byte, rest: seq<byte>, g: Message)
    requires IsMedia(pids, pid) && rest != [] && pids[pid].msg == Some(g) && g.payload != [] && g.cc < 16
    requires ReadsAsLate(g.cc, c % 16)
    ensures DecodeAll(pids, NextPacket(pid, c, rest), 0) == AllResult(Success, pids, [])
  {
    hide NextPacket, DecodePacket, DecodeAll, NextPlan, DecodePes;
    var pos := ContinuationDispatch(pids, pid, c, rest);
    var d := NextPacket(pid, c, rest);
    CounterDecides(d, pos, false, c % 16, g);
    assert SetMsg(pids, pid, Some(g)) == pids;
    OnePacketStream(pids, d, DecodePacket(pids, d, 0));
  }

  lemma ContinuationThrows(pids: Pids, pid: int, c: byte, rest: seq<byte>, g: Message)
    requires IsMedia(pids, pid) && rest != [] && pids[pid].msg == Some(g) && g.payload != [] && g.cc < 16
    requires !ReadsAsLate(g.cc, c % 16) && !InLine(g.cc, c % 16)
    ensures DecodeAll(pids, NextPacket(pid, c, rest), 0)
            == AllResult(PesError, SetMsg(pids, pid, Some(FRESH_MESSAGE)), [])
  {
    hide NextPacket, DecodePacket, DecodeAll, NextPlan, DecodePes;
    var pos := ContinuationDispatch(pids, pid, c, rest);
    var d := NextPacket(pid, c, rest);
    CounterDecides(d, pos, false, c % 16, g);
    var clean := SetMsg(pids, pid, None);
    RewindsToNothing(pids, d, clean);
    ContinuationLost(clean, pid, c, rest);
    assert SetMsg(clean, pid, Some(FRESH_MESSAGE)) == SetMsg(pids, pid, Some(FRESH_MESSAGE));
  }

  lemma ContinuationAdds(pids: Pids, pid: int, c: byte, rest: seq<byte>, g: Message)
    requires IsMedia(pids, pid) && rest != [] && pids[pid].msg == Some(g) && g.payload != [] && g.cc < 16
    requires InLine(g.cc, c % 16)
    requires 0 < NextPlan(|rest|).left <= |rest|
    requires g.pesLength > 0 ==> |g.payload| + NextPlan(|rest|).left <= g.pesLength
    ensures var q := g.(cc := c % 16, payload := g.payload + rest[..NextPlan(|rest|).left]);
            DecodeAll(pids, NextPacket(pid, c, rest), 0)
            == if 0 < g.pesLength <= |q.payload| then AllResult(Success, SetMsg(pids, pid, None), [Delivered(pid, q)])
               else AllResult(Success, SetMsg(pids, pid, Some(q)), [])
  {
    hide NextPacket, DecodePacket, DecodeAll, NextPlan, DecodePes;
    var pos := ContinuationDispatch(pids, pid, c, rest);
    var d := NextPacket(pid, c, rest);
    InLineAdds(d, pos, false, c % 16, g);
    assert d[pos..pos + NextPlan(|rest|).left] == d[pos..];
    OnePacketStream(pids, d, DecodePacket(pids, d, 0));
  }

  // ---------- the bytes taken ----------

  /** The numbers from `a` up to but not with `b`. */
  function Range(a: nat, b: nat): (r: seq<nat>)
    ensures |r| == if a <= b then b - a else 0
    decreases b
  {
    if b <= a then [] else Range(a, b - 1) + [b - 1]
  }

  lemma {:induction false} StartGrows(pid: int, cc: byte, m: Message, pcr: Option<int>, i: nat, j: nat)
    requires m.payload != [] && i <= j <= |MessagePackets(pid, cc, m, pcr)|
    ensures Start(m, pcr, i) <= Start(m, pcr, j) <= |m.payload| && (i < j ==> Start(m, pcr, i) < Start(m, pcr, j))
    decreases j
  {
    hide MessagePackets, Start, Chunk;
    if i < j {
      ChunkIs(pid, cc, m, pcr, j - 1);
      StartGrows(pid, cc, m, pcr, i, j - 1);
    }
  }

  /** Packets taken in order have at most the bytes up to the last one, and all of those only without a gap. */
  lemma {:induction false} TakenBytes(pid: int, cc: byte, m: Message, pcr: Option<int>, taken: seq<nat>)
    requires m.payload != [] && taken != [] && Increasing(taken, |MessagePackets(pid, cc, m, pcr)|)
    ensures var bytes, last := ChunksOf(m, pcr, taken), taken[|taken| - 1];
            && 0 < |bytes| <= Start(m, pcr, last + 1)
            && (|bytes| == Start(m, pcr, last + 1) ==> taken == Range(0, last + 1))
    decreases |taken|
  {
    hide MessagePackets, Start, Chunk, ChunksOf, Range, Increasing;
    var front, last := taken[..|taken| - 1], taken[|taken| - 1];
    assert taken == front + [last];
    IncreasingFront(front, last, |MessagePackets(pid, cc, m, pcr)|);
    ChunkIs(pid, cc, m, pcr, last);
    FirstPart(pid, cc, m, pcr);
    ChunksSnoc(m, pcr, front, last);
    StartGrows(pid, cc, m, pcr, 0, last);
    RangeSnoc(0, last);
    if front == [] {
      NoChunks(m, pcr);
    } else {
      TakenBytes(pid, cc, m, pcr, front);
      StartGrows(pid, cc, m, pcr, front[|front| - 1] + 1, last);
    }
  }

  lemma IncreasingFront(front: seq<nat>, last: nat, n: nat)
    ensures Increasing(front + [last], n)
            <==> Increasing(front, n) && last < n && (front != [] ==> front[|front| - 1] < last)
  {
    var all := front + [last];
    assert all[|front|] == last && forall i :: 0 <= i < |front| ==> all[i] == front[i];
  }

  lemma NoChunks(m: Message, pcr: Option<int>)
    requires m.payload != []
    ensures ChunksOf(m, pcr, []) == []
  {
  }

  lemma RangeSnoc(a: nat, b: nat)
    requires a <= b
    ensures Range(a, b + 1) == Range(a, b) + [b] && Range(a, a) == []
  {
  }

  /** The bytes of packets without a gap. */
  lemma {:induction false} RunOfChunks(pid: int, cc: byte, m: Message, pcr: Option<int>, before: seq<nat>, a: nat, b: nat)
    requires m.payload != [] && a <= b <= |MessagePackets(pid, cc, m, pcr)|
    ensures Start(m, pcr, a) <= Start(m, pcr, b) <= |m.payload|
    ensures ChunksOf(m, pcr, before + Range(a, b))
            == ChunksOf(m, pcr, before) + m.payload[Start(m, pcr, a)..Start(m, pcr, b)]
    decreases b
  {
    hide MessagePackets, Start, Chunk, ChunksOf, Range;
    StartGrows(pid, cc, m, pcr, a, b);
    RangeSnoc(a, if a < b then b - 1 else a);
    if a == b {
      assert before + [] == before;
      assert ChunksOf(m, pcr, before) + [] == ChunksOf(m, pcr, before);
    } else {
      RunOfChunks(pid, cc, m, pcr, before, a, b - 1);
      ChunkIs(pid, cc, m, pcr, b - 1);
      StartGrows(pid, cc, m, pcr, a, b - 1);
      ChunksSnoc(m, pcr, before + Range(a, b - 1), b - 1);
      assert before + Range(a, b) == (before + Range(a, b - 1)) + [b - 1];
      SlicesJoin(ChunksOf(m, pcr, before), m.payload, Start(m, pcr, a), Start(m, pcr, b - 1), Start(m, pcr, b));
    }
  }

  lemma SlicesJoin(front: seq<byte>, s: seq<byte>, a: nat, b: nat, c: nat)
    requires a <= b <= c <= |s|
    ensures (front + s[a..b]) + s[b..c] == front + s[a..c]
  {
  }

  lemma ChunksSnoc(m: Message, pcr: Option<int>, front: seq<nat>, j: nat)
    requires m.payload != []
    ensures ChunksOf(m, pcr, front + [j]) == ChunksOf(m, pcr, front) + Chunk(m, pcr, j)
  {
    hide Chunk;
    assert (front + [j])[..|front|] == front;
  }

  // ---------- the receiver is the decoder ----------

  /** The channel holds what the receiver holds. */
  predicate Matches(pids: Pids, pid: int, m: Message, pcr: Option<int>, cc: byte, r: Receiver)
    requires m.payload != []
  {
    && IsMedia(pids, pid)
    && if r.Holding? then
         && r.taken != []
         && pids[pid].msg == Some(Gathered(m, cc + r.taken[|r.taken| - 1], ChunksOf(m, pcr, r.taken)))
       else pids[pid].msg in {None, Some(FRESH_MESSAGE)}
  }

  /** Packets were taken in order and below `top`, and a message of announced length is done when it is whole. */
  predicate Sound(m: Message, pcr: Option<int>, r: Receiver, top: nat)
    requires m.payload != []
  {
    !r.Thrown? ==>
      && r.taken != [] && Increasing(r.taken, top)
      && (r.Holding? && AwaitedLength(m) > 0 ==> |ChunksOf(m, pcr, r.taken)| < |m.payload|)
      && (r.Done? ==> AwaitedLength(m) > 0 && |ChunksOf(m, pcr, r.taken)| >= |m.payload|)
  }

  lemma AwaitedIs(m: Message)
    ensures AwaitedLength(m) == 0 || AwaitedLength(m) == |m.payload|
  {
  }

  lemma Loosen(js: seq<nat>, n: nat, k: nat)
    requires Increasing(js, n) && n <= k
    ensures Increasing(js, k) && forall i :: 0 <= i < |js| ==> js[i] < n
  {
  }

  lemma TakeSound(m: Message, pcr: Option<int>, cc: byte, r: Receiver, top: nat, j: nat)
    requires m.payload != [] && Sound(m, pcr, r, top) && top <= j
    ensures r.Holding? ==> r.taken != []
    ensures Sound(m, pcr, Take(m, pcr, cc, r, j), j + 1)
  {
    AwaitedIs(m);
    hide ChunksOf, Increasing, AwaitedLength, InLine, ReadsAsLate;
    if !r.Thrown? {
      Loosen(r.taken, top, j + 1);
      Loosen(r.taken, top, top);
      IncreasingFront(r.taken, j, j + 1);
    }
  }

  /** A whole message was taken without a gap. */
  lemma WholeIs(pid: int, cc: byte, m: Message, pcr: Option<int>, taken: seq<nat>)
    requires m.payload != [] && taken != [] && Increasing(taken, |MessagePackets(pid, cc, m, pcr)|)
    requires |ChunksOf(m, pcr, taken)| >= |m.payload|
    ensures taken == Range(0, |MessagePackets(pid, cc, m, pcr)|) && ChunksOf(m, pcr, taken) == m.payload
  {
    hide *;
    var n, last := |MessagePackets(pid, cc, m, pcr)|, taken[|taken| - 1];
    Loosen(taken, n, n);
    TakenBytes(pid, cc, m, pcr, taken);
    StartGrows(pid, cc, m, pcr, last + 1, n);
    WholeBytes(pid, cc, m, pcr);
  }

  lemma WholeBytes(pid: int, cc: byte, m: Message, pcr: Option<int>)
    requires m.payload != []
    ensures var n := |MessagePackets(pid, cc, m, pcr)|;
            n > 0 && Start(m, pcr, n) == |m.payload| && ChunksOf(m, pcr, Range(0, n)) == m.payload
  {
    hide *;
    var n := |MessagePackets(pid, cc, m, pcr)|;
    ChunkIs(pid, cc, m, pcr, n - 1);
    RunOfChunks(pid, cc, m, pcr, [], 0, n);
    FirstPart(pid, cc, m, pcr);
    NoChunks(m, pcr);
    assert [] + Range(0, n) == Range(0, n) && [] + m.payload[0..|m.payload|] == m.payload;
  }

  lemma CounterOfPacket(cc: byte, j: nat)
    ensures AdvanceCc(cc, j) % 16 == (cc + j) % 16
  {
    var v := cc as int + j;
    var q, w := v / 256, v % 256;
    ModUnique(v, 16, 16 * q + w / 16, w % 16);
  }

  /** Packet `j` arrives while packets are held. */
  lemma HoldingTakes(pids: Pids, pid: int, cc: byte, m: Message, pcr: Option<int>, r: Receiver, top: nat, j: nat)
    requires m.payload != [] && 0 < top <= j < |MessagePackets(pid, cc, m, pcr)| && r.Holding?
    requires Matches(pids, pid, m, pcr, cc, r) && Sound(m, pcr, r, top)
    ensures var one, r' := DecodeAll(pids, MessagePackets(pid, cc, m, pcr)[j], 0), Take(m, pcr, cc, r, j);
            && Matches(one.pids, pid, m, pcr, cc, r')
            && one.out == (if r'.Done? then [Delivered(pid, Gathered(m, cc + j, m.payload))] else [])
            && (r'.Done? ==> j == |MessagePackets(pid, cc, m, pcr)| - 1)
            && one.pids == SetMsg(pids, pid, one.pids[pid].msg)
  {
    hide MessagePackets, NextPacket, NextPlan, DecodeAll, ChunksOf, Increasing, AwaitedLength, Start, Chunk, AdvanceCc;
    hide InLine, ReadsAsLate;
    var n, last := |MessagePackets(pid, cc, m, pcr)|, r.taken[|r.taken| - 1];
    var bytes, c, rest := ChunksOf(m, pcr, r.taken), AdvanceCc(cc, j), m.payload[Start(m, pcr, j)..];
    var g := Gathered(m, cc + last, bytes);
    AwaitedIs(m);
    Loosen(r.taken, top, n);
    Loosen(r.taken, top, top);
    TakenBytes(pid, cc, m, pcr, r.taken);
    PacketOf(pid, cc, m, pcr, j);
    ChunkIs(pid, cc, m, pcr, j);
    StartGrows(pid, cc, m, pcr, last + 1, j);
    CounterOfPacket(cc, j);
    if InLine((cc + last) % 16, (cc + j) % 16) {
      ContinuationAdds(pids, pid, c, rest, g);
      ChunksSnoc(m, pcr, r.taken, j);
      assert rest[..NextPlan(|rest|).left] == Chunk(m, pcr, j);
      IncreasingFront(r.taken, j, n);
      if 0 < AwaitedLength(m) <= |ChunksOf(m, pcr, r.taken + [j])| {
        WholeIs(pid, cc, m, pcr, r.taken + [j]);
        RangeSnoc(0, n - 1);
        assert (r.taken + [j])[|r.taken|] == j;
      }
    } else if ReadsAsLate((cc + last) % 16, (cc + j) % 16) {
      ContinuationLate(pids, pid, c, rest, g);
    } else {
      ContinuationThrows(pids, pid, c, rest, g);
    }
  }

  /** Packet `j` arrives while nothing is held. */
  lemma OtherTakes(pids: Pids, pid: int, cc: byte, m: Message, pcr: Option<int>, r: Receiver, j: nat)
    requires m.payload != [] && 0 < j < |MessagePackets(pid, cc, m, pcr)| && !r.Holding?
    requires Matches(pids, pid, m, pcr, cc, r)
    ensures var one := DecodeAll(pids, MessagePackets(pid, cc, m, pcr)[j], 0);
            && Matches(one.pids, pid, m, pcr, cc, Take(m, pcr, cc, r, j))
            && one.out == [] && one.pids == SetMsg(pids, pid, one.pids[pid].msg)
  {
    hide MessagePackets, NextPacket, NextPlan, DecodeAll, Start, AdvanceCc;
    PacketOf(pid, cc, m, pcr, j);
    ContinuationLost(pids, pid, AdvanceCc(cc, j), m.payload[Start(m, pcr, j)..]);
  }

  /** What the receiver has after the first packet, in terms of one message on its channel. */
  lemma FirstMeans(pid: int, cc: byte, m: Message, pcr: Option<int>)
    requires m.payload != []
    ensures var k, r := Start(m, pcr, 1), First(m, pcr);
            && k <= |m.payload| && r == (if IsComplete(m, k) then Done([0]) else Holding([0]))
            && Held(m, cc, k) == (if IsComplete(m, k) then None else Some(Gathered(m, cc, ChunksOf(m, pcr, [0]))))
            && DeliveredAt(pid, m, cc, k)
               == (if IsComplete(m, k) then Some(Delivered(pid, Gathered(m, cc, m.payload))) else None)
            && Sound(m, pcr, r, 1)
  {
    FirstBytes(pid, cc, m, pcr);
    AwaitedIs(m);
    hide Start, AwaitedLength, MessagePackets, FirstPlan, ChunksOf;
  }

  lemma FirstBytes(pid: int, cc: byte, m: Message, pcr: Option<int>)
    requires m.payload != []
    ensures var k := Start(m, pcr, 1);
            && 0 < k <= |m.payload| && ChunksOf(m, pcr, [0]) == m.payload[..k]
            && (k == |m.payload| ==> m.payload[..k] == m.payload)
  {
    hide Start, MessagePackets, ChunksOf, FirstPlan;
    FirstPart(pid, cc, m, pcr);
    NoChunks(m, pcr);
    ChunksSnoc(m, pcr, [], 0);
    ChunkIs(pid, cc, m, pcr, 0);
    assert [] + [0] == [0] && [] + Chunk(m, pcr, 0) == Chunk(m, pcr, 0);
  }

  /** `held` differs from `pids` in the message on one PID at most. */
  predicate OnlyAt(pids: Pids, held: Pids, pid: int) {
    pid in pids && pid in held && held == SetMsg(pids, pid, held[pid].msg)
  }

  lemma OnlyAtAgain(pids: Pids, a: Pids, b: Pids, pid: int)
    requires OnlyAt(pids, a, pid) && pid in b && b == SetMsg(a, pid, b[pid].msg)
    ensures OnlyAt(pids, b, pid)
  {
  }

  /** The first packet arrives on a channel that holds nothing. */
  lemma FirstTakes(pids: Pids, pid: int, cc: byte, m: Message, pcr: Option<int>)
    requires IsMedia(pids, pid) && pids[pid].msg.None? && HasOptionalHeader(m) && m.payload != []
    ensures var one, r := DecodeAll(pids, MessagePackets(pid, cc, m, pcr)[0], 0), First(m, pcr);
            && Matches(one.pids, pid, m, pcr, cc, r) && Sound(m, pcr, r, 1) && OnlyAt(pids, one.pids, pid)
            && one.out == (if r.Done? then [Delivered(pid, Gathered(m, cc, m.payload))] else [])
            && (r.Done? ==> |MessagePackets(pid, cc, m, pcr)| == 1)
  {
    hide *;
    FirstPart(pid, cc, m, pcr);
    FirstPacketDecodes(pids, pid, cc, m, pcr);
    FirstMeans(pid, cc, m, pcr);
    FirstMatches(pids, pid, cc, m, pcr);
    if First(m, pcr).Done? {
      FirstIsAll(pid, cc, m, pcr);
    }
  }

  lemma FirstIsAll(pid: int, cc: byte, m: Message, pcr: Option<int>)
    requires m.payload != [] && First(m, pcr).Done?
    ensures |MessagePackets(pid, cc, m, pcr)| == 1
  {
    AwaitedIs(m);
    WholeIs(pid, cc, m, pcr, [0]);
    hide *;
  }

  lemma FirstMatches(pids: Pids, pid: int, cc: byte, m: Message, pcr: Option<int>)
    requires IsMedia(pids, pid) && m.payload != []
    ensures Start(m, pcr, 1) <= |m.payload|
    ensures var k := Start(m, pcr, 1);
            var pids1, out := SetMsg(pids, pid, Held(m, cc, k)), ToSeq(DeliveredAt(pid, m, cc, k));
            && Matches(pids1, pid, m, pcr, cc, First(m, pcr)) && OnlyAt(pids, pids1, pid)
            && out == (if First(m, pcr).Done? then [Delivered(pid, Gathered(m, cc, m.payload))] else [])
  {
    FirstMeans(pid, cc, m, pcr);
    hide Start, First, Sound, ChunksOf, IsComplete, Held, DeliveredAt, Gathered;
  }

  function Pick(packets: seq<seq<byte>>, js: seq<nat>): (r: seq<seq<byte>>)
    requires forall i :: 0 <= i < |js| ==> js[i] < |packets|
    ensures |r| == |js|
  {
    seq(|js|, i requires 0 <= i < |js| => packets[js[i]])
  }

  lemma DecodeEachSnoc(pids: Pids, front: seq<seq<byte>>, d: seq<byte>)
    ensures var f := DecodeEach(pids, front);
            var one := DecodeAll(f.0, d, 0);
            DecodeEach(pids, front + [d]) == (one.pids, f.1 + one.out)
  {
    hide DecodeAll;
    assert (front + [d])[..|front|] == front;
  }

  lemma DecodeEachOne(pids: Pids, d: seq<byte>)
    ensures DecodeEach(pids, [d]) == (DecodeAll(pids, d, 0).pids, DecodeAll(pids, d, 0).out)
  {
    hide DecodeAll;
    DecodeEachSnoc(pids, [], d);
    assert [] + [d] == [d] && [] + DecodeAll(pids, d, 0).out == DecodeAll(pids, d, 0).out;
  }

  /** What arrived, decoded one by one, is what the receiver says; nothing else changes. */
  lemma {:induction false} ReceiverAgrees(pids: Pids, pid: int, cc: byte, m: Message, pcr: Option<int>, js: seq<nat>)
    requires IsMedia(pids, pid) && pids[pid].msg.None? && HasOptionalHeader(m) && m.payload != []
    requires Increasing([0] + js, |MessagePackets(pid, cc, m, pcr)|)
    ensures var packets := MessagePackets(pid, cc, m, pcr);
            && (forall i :: 0 <= i < |js| ==> js[i] < |packets|)
            && var e, r := DecodeEach(pids, [packets[0]] + Pick(packets, js)), TakeAll(m, pcr, cc, js);
               && Matches(e.0, pid, m, pcr, cc, r) && Sound(m, pcr, r, if js == [] then 1 else js[|js| - 1] + 1)
               && OnlyAt(pids, e.0, pid)
               && e.1 == if r.Done? then [Delivered(pid, Gathered(m, cc + |packets| - 1, m.payload))] else []
    decreases |js|
  {
    hide MessagePackets, DecodeAll, DecodeEach, Matches, Sound, Take, First, Increasing, Gathered, OnlyAt;
    var packets := MessagePackets(pid, cc, m, pcr);
    BelowAll(js, |packets|);
    if js == [] {
      FirstTakes(pids, pid, cc, m, pcr);
      DecodeEachOne(pids, packets[0]);
      assert [packets[0]] + Pick(packets, []) == [packets[0]];
    } else {
      var front, j := js[..|js| - 1], js[|js| - 1];
      assert js == front + [j] && [0] + js == ([0] + front) + [j];
      IncreasingFront([0] + front, j, |packets|);
      ReceiverAgrees(pids, pid, cc, m, pcr, front);
      assert [packets[0]] + Pick(packets, js) == ([packets[0]] + Pick(packets, front)) + [packets[j]];
      DecodeEachSnoc(pids, [packets[0]] + Pick(packets, front), packets[j]);
      NextTakes(pids, pid, cc, m, pcr, front, j, DecodeEach(pids, [packets[0]] + Pick(packets, front)).0);
    }
  }

  lemma TakeOther(m: Message, pcr: Option<int>, cc: byte, r: Receiver, j: nat)
    requires m.payload != [] && !r.Holding?
    ensures Take(m, pcr, cc, r, j) == r
  {
  }

  /** One more packet. */
  lemma NextTakes(pids: Pids, pid: int, cc: byte, m: Message, pcr: Option<int>, front: seq<nat>, j: nat, held: Pids)
    requires m.payload != [] && 0 < j < |MessagePackets(pid, cc, m, pcr)| && (front != [] ==> front[|front| - 1] < j)
    requires OnlyAt(pids, held, pid)
    requires var r := TakeAll(m, pcr, cc, front);
             Matches(held, pid, m, pcr, cc, r) && Sound(m, pcr, r, if front == [] then 1 else front[|front| - 1] + 1)
    ensures var n, one := |MessagePackets(pid, cc, m, pcr)|, DecodeAll(held, MessagePackets(pid, cc, m, pcr)[j], 0);
            var r, r' := TakeAll(m, pcr, cc, front), TakeAll(m, pcr, cc, front + [j]);
            && Matches(one.pids, pid, m, pcr, cc, r') && Sound(m, pcr, r', j + 1)
            && OnlyAt(pids, one.pids, pid) && (r.Done? ==> r'.Done?)
            && one.out == if r'.Done? && !r.Done? then [Delivered(pid, Gathered(m, cc + n - 1, m.payload))] else []
  {
    hide *;
    var r, top := TakeAll(m, pcr, cc, front), if front == [] then 1 else front[|front| - 1] + 1;
    TakeAllSnoc(m, pcr, cc, front, j);
    TakeSound(m, pcr, cc, r, top, j);
    if r.Holding? {
      HoldingTakes(held, pid, cc, m, pcr, r, top, j);
    } else {
      OtherTakes(held, pid, cc, m, pcr, r, j);
      TakeOther(m, pcr, cc, r, j);
    }
    var one := DecodeAll(held, MessagePackets(pid, cc, m, pcr)[j], 0);
    MatchesHas(one.pids, pid, m, pcr, cc, Take(m, pcr, cc, r, j));
    OnlyAtAgain(pids, held, one.pids, pid);
  }

  lemma MatchesHas(pids: Pids, pid: int, m: Message, pcr: Option<int>, cc: byte, r: Receiver)
    requires m.payload != [] && Matches(pids, pid, m, pcr, cc, r)
    ensures pid in pids && IsMedia(pids, pid)
    ensures !r.Holding? ==> pids[pid].msg in {None, Some(FRESH_MESSAGE)}
  {
    hide ChunksOf;
  }

  lemma TakeAllSnoc(m: Message, pcr: Option<int>, cc: byte, front: seq<nat>, j: nat)
    requires m.payload != []
    ensures TakeAll(m, pcr, cc, front + [j]) == Take(m, pcr, cc, TakeAll(m, pcr, cc, front), j)
  {
    hide Take;
    assert (front + [j])[..|front|] == front;
  }

  lemma BelowAll(js: seq<nat>, n: nat)
    requires Increasing([0] + js, n)
    ensures forall i :: 0 <= i < |js| ==> 0 < js[i] < n
  {
    var all := [0] + js;
    forall i | 0 <= i < |js| ensures 0 < js[i] < n {
      assert all[0] == 0 && all[i + 1] == js[i];
    }
  }

  // ---------- the next message ----------

  lemma SamePacket(pids: Pids, clean: Pids, d: seq<byte>)
    requires |d| > 0 && DecodePacket(pids, d, 0) == DecodePacket(clean, d, 0)
    requires DecodePacket(clean, d, 0).pos > 0 || DecodePacket(clean, d, 0).status != Success
    ensures DecodeAll(pids, d, 0) == DecodeAll(clean, d, 0)
  {
    hide DecodePacket;
  }

  /** Where the PES header starts. */
  function FirstPos(m: Message, pcr: Option<int>): int {
    4 + (if FirstPlan(m, pcr).hasAf then AfSize(pcr, FirstPlan(m, pcr).reserved) else 0)
  }

  /** How the first packet of a message reaches the PES decoder. */
  lemma FirstDispatch(pids: Pids, pid: int, c: byte, m: Message, pcr: Option<int>)
    requires IsMedia(pids, pid) && m.payload != []
    ensures var d, pos := FirstPacket(pid, c, m, pcr), FirstPos(m, pcr);
            && 0 < pos < |d| == PACKET_SIZE
            && var r := DecodePes(d, pos, true, c % 16, pids[pid].msg);
               DecodePacket(pids, d, 0)
               == PacketResult(r.status, SetMsg(pids, pid, r.msg), r.pos,
                               if r.out.Some? then Some(Delivered(pid, r.out.value)) else None)
  {
    hide FirstPacket, DecodePacket, DecodePayload, DecodePes, AfBytes, Header, FirstPlan, PesHeader;
    var d, plan, discontinuity := FirstPacket(pid, c, m, pcr), FirstPlan(m, pcr), pcr.Some? && m.isDiscontinuity;
    FirstPacketParts(d, pid, c, m, pcr);
    var pos := FirstPos(m, pcr);
    PacketDispatch(pids, d, true, pid, c, plan, discontinuity, pcr);
    PayloadIsPes(pids, d, pos, true, pid, c % 16, DecodePes(d, pos, true, c % 16, pids[pid].msg));
  }

  /** A message without bytes is as good as none. */
  lemma StartsOnFresh(pids: Pids, pid: int, c: byte, m: Message, pcr: Option<int>)
    requires IsMedia(pids, pid) && pids[pid].msg in {None, Some(FRESH_MESSAGE)} && m.payload != []
    ensures DecodePacket(pids, FirstPacket(pid, c, m, pcr), 0)
            == DecodePacket(SetMsg(pids, pid, None), FirstPacket(pid, c, m, pcr), 0)
    ensures var r := DecodePacket(pids, FirstPacket(pid, c, m, pcr), 0); r.pos > 0 || r.status != Success
  {
    hide FirstPacket, DecodePacket, DecodeUnitStart, FirstPos;
    FirstDispatch(pids, pid, c, m, pcr);
    FirstDispatch(SetMsg(pids, pid, None), pid, c, m, pcr);
    assert forall x: Option<Message> :: SetMsg(SetMsg(pids, pid, None), pid, x) == SetMsg(pids, pid, x);
  }

  /** The next message starts when nothing is held. */
  lemma StartsClean(pids: Pids, pid: int, c: byte, m: Message, pcr: Option<int>)
    requires IsMedia(pids, pid) && pids[pid].msg in {None, Some(FRESH_MESSAGE)}
    requires HasOptionalHeader(m) && m.payload != []
    ensures Start(m, pcr, 1) <= |m.payload|
    ensures var k := Start(m, pcr, 1);
            DecodeAll(pids, FirstPacket(pid, c, m, pcr), 0)
            == AllResult(Success, SetMsg(pids, pid, Held(m, c, k)), ToSeq(DeliveredAt(pid, m, c, k)))
  {
    hide FirstPacket, DecodePacket, DecodeAll, FirstPlan, Start, Held, DeliveredAt;
    var clean := SetMsg(pids, pid, None);
    FirstPart(pid, c, m, pcr);
    FirstPacketDecodes(clean, pid, c, m, pcr);
    StartsOnFresh(pids, pid, c, m, pcr);
    SamePacket(pids, clean, FirstPacket(pid, c, m, pcr));
    assert SetMsg(clean, pid, Held(m, c, Start(m, pcr, 1))) == SetMsg(pids, pid, Held(m, c, Start(m, pcr, 1)));
  }

  /** The next message starts behind a held one of which it does not follow, or which it cuts short. */
  lemma StartThrows(pids: Pids, pid: int, c: byte, m: Message, pcr: Option<int>, g: Message)
    requires IsMedia(pids, pid) && pids[pid].msg == Some(g) && g.payload != [] && g.cc < 16
    requires HasOptionalHeader(m) && m.payload != []
    requires CutsShort(g, true) || (!InLine(g.cc, c % 16) && !ReadsAsLate(g.cc, c % 16))
    ensures Start(m, pcr, 1) <= |m.payload|
    ensures var k := Start(m, pcr, 1);
            DecodeAll(pids, FirstPacket(pid, c, m, pcr), 0)
            == AllResult(Success, SetMsg(pids, pid, Held(m, c, k)), ToSeq(DeliveredAt(pid, m, c, k)))
  {
    hide FirstPacket, DecodePacket, DecodeAll, DecodePes, FirstPos, Start, Held, DeliveredAt;
    var d, clean := FirstPacket(pid, c, m, pcr), SetMsg(pids, pid, None);
    FirstDispatch(pids, pid, c, m, pcr);
    CounterDecides(d, FirstPos(m, pcr), true, c % 16, g);
    RewindsToNothing(pids, d, clean);
    StartsClean(clean, pid, c, m, pcr);
    assert SetMsg(clean, pid, Held(m, c, Start(m, pcr, 1))) == SetMsg(pids, pid, Held(m, c, Start(m, pcr, 1)));
  }

  /** A message of unknown length is delivered by the start of the next one when that follows. */
  lemma StartDelivers(pids: Pids, pid: int, c: byte, m: Message, pcr: Option<int>, g: Message)
    requires IsMedia(pids, pid) && pids[pid].msg == Some(g) && g.payload != [] && g.cc < 16 && g.pesLength == 0
    requires HasOptionalHeader(m) && m.payload != [] && InLine(g.cc, c % 16)
    ensures Start(m, pcr, 1) <= |m.payload|
    ensures var k := Start(m, pcr, 1);
            DecodeAll(pids, FirstPacket(pid, c, m, pcr), 0)
            == AllResult(Success, SetMsg(pids, pid, Held(m, c, k)),
                         [Delivered(pid, g.(cc := c % 16))] + ToSeq(DeliveredAt(pid, m, c, k)))
  {
    hide FirstPacket, DecodePacket, DecodeAll, DecodePes, FirstPos, Start, Held, DeliveredAt;
    var d, clean := FirstPacket(pid, c, m, pcr), SetMsg(pids, pid, None);
    FirstDispatch(pids, pid, c, m, pcr);
    InLineAdds(d, FirstPos(m, pcr), true, c % 16, g);
    RewindOnce(pids, d, clean, Delivered(pid, g.(cc := c % 16)));
    StartsClean(clean, pid, c, m, pcr);
    assert SetMsg(clean, pid, Held(m, c, Start(m, pcr, 1))) == SetMsg(pids, pid, Held(m, c, Start(m, pcr, 1)));
  }

  /** Or taken for an old packet. */
  lemma StartLate(pids: Pids, pid: int, c: byte, m: Message, pcr: Option<int>, g: Message)
    requires IsMedia(pids, pid) && pids[pid].msg == Some(g) && g.payload != [] && g.cc < 16 && g.pesLength == 0
    requires m.payload != [] && ReadsAsLate(g.cc, c % 16)
    ensures DecodeAll(pids, FirstPacket(pid, c, m, pcr), 0) == AllResult(Success, pids, [])
  {
    hide FirstPacket, DecodePacket, DecodeAll, DecodePes, FirstPos;
    var d := FirstPacket(pid, c, m, pcr);
    FirstDispatch(pids, pid, c, m, pcr);
    CounterDecides(d, FirstPos(m, pcr), true, c % 16, g);
    assert SetMsg(pids, pid, Some(g)) == pids;
    OnePacketStream(pids, d, DecodePacket(pids, d, 0));
  }

  // ---------- what is delivered of a message ----------

  /** The packets of which the message is delivered, when the next message starts with counter `cc + n`. */
  function Delivery(m: Message, cc: byte, n: nat, r: Receiver): Option<seq<nat>>
    requires !r.Thrown? ==> r.taken != []
  {
    if r.Done? then Some(r.taken)
    else if r.Holding? && AwaitedLength(m) == 0 && InLine((cc + r.taken[|r.taken| - 1]) % 16, (cc + n) % 16) then
      Some(r.taken)
    else None
  }

  /** The next message is not seen, because its start reads as an old packet. */
  predicate StartIsMissed(m: Message, cc: byte, n: nat, r: Receiver)
    requires !r.Thrown? ==> r.taken != []
  {
    r.Holding? && AwaitedLength(m) == 0 && ReadsAsLate((cc + r.taken[|r.taken| - 1]) % 16, (cc + n) % 16)
  }

  /** What the first packet of the next message brings out of the held one. */
  lemma NextStart(pids: Pids, pid: int, cc: byte, m: Message, pcr: Option<int>, r: Receiver, top: nat, n: nat,
                  m2: Message, pcr2: Option<int>)
    requires m.payload != [] && Matches(pids, pid, m, pcr, cc, r) && Sound(m, pcr, r, top)
    requires top <= |MessagePackets(pid, cc, m, pcr)| == n && HasOptionalHeader(m2) && m2.payload != []
    ensures (!r.Thrown? ==> r.taken != []) && Start(m2, pcr2, 1) <= |m2.payload|
    ensures var c, k, taken := AdvanceCc(cc, n), Start(m2, pcr2, 1), Delivery(m, cc, n, r);
            DecodeAll(pids, FirstPacket(pid, c, m2, pcr2), 0)
            == if StartIsMissed(m, cc, n, r) then AllResult(Success, pids, [])
               else AllResult(Success, SetMsg(pids, pid, Held(m2, c, k)),
                              (if r.Holding? && taken.Some?
                               then [Delivered(pid, Gathered(m, cc + n, ChunksOf(m, pcr, r.taken)))] else [])
                              + ToSeq(DeliveredAt(pid, m2, c, k)))
  {
    hide FirstPacket, DecodeAll, MessagePackets, Start, Held, DeliveredAt, AdvanceCc, InLine, ReadsAsLate, AwaitedLength;
    hide ChunksOf, Increasing;
    CounterOfPacket(cc, n);
    AwaitedIs(m);
    var c := AdvanceCc(cc, n);
    if r.Holding? {
      var last, bytes := r.taken[|r.taken| - 1], ChunksOf(m, pcr, r.taken);
      Loosen(r.taken, top, n);
      TakenBytes(pid, cc, m, pcr, r.taken);
      var g := Gathered(m, cc + last, bytes);
      if AwaitedLength(m) > 0 || (!InLine(g.cc, c % 16) && !ReadsAsLate(g.cc, c % 16)) {
        StartThrows(pids, pid, c, m2, pcr2, g);
      } else if InLine(g.cc, c % 16) {
        NotBoth(g.cc, c % 16);
        StartDelivers(pids, pid, c, m2, pcr2, g);
      } else {
        FirstPart(pid, c, m2, pcr2);
        StartLate(pids, pid, c, m2, pcr2, g);
      }
    } else {
      StartsClean(pids, pid, c, m2, pcr2);
    }
  }

  lemma NotBoth(held: int, cc: int)
    requires InLine(held, cc) && 0 <= held
    ensures !ReadsAsLate(held, cc)
  {
  }

  /** Main result: a message of which any packets behind the first are missing, followed by the start of the next one.
      Of the message exactly what `Delivery` says comes out, and the next message is seen unless its start reads as an
      old packet. */
  lemma LossExactly(pids: Pids, pid: int, cc: byte, m: Message, pcr: Option<int>, js: seq<nat>, m2: Message,
                    pcr2: Option<int>)
    requires IsMedia(pids, pid) && pids[pid].msg.None?
    requires HasOptionalHeader(m) && m.payload != [] && HasOptionalHeader(m2) && m2.payload != []
    requires Increasing([0] + js, |MessagePackets(pid, cc, m, pcr)|)
    ensures var packets := MessagePackets(pid, cc, m, pcr);
            && (forall i :: 0 <= i < |js| ==> js[i] < |packets|) && Start(m2, pcr2, 1) <= |m2.payload|
            && var n, r, c, k := |packets|, TakeAll(m, pcr, cc, js), AdvanceCc(cc, |packets|), Start(m2, pcr2, 1);
               var out := DecodeEach(pids, [packets[0]] + Pick(packets, js) + [FirstPacket(pid, c, m2, pcr2)]).1;
               var taken := Delivery(m, cc, n, r);
               var counter := if r.Done? then cc + n - 1 else cc + n;
               out == (if taken.Some? then [Delivered(pid, Gathered(m, counter, ChunksOf(m, pcr, taken.value)))] else [])
                      + (if StartIsMissed(m, cc, n, r) then [] else ToSeq(DeliveredAt(pid, m2, c, k)))
  {
    hide *;
    var packets := MessagePackets(pid, cc, m, pcr);
    var n, r := |packets|, TakeAll(m, pcr, cc, js);
    BelowAll(js, n);
    ReceiverAgrees(pids, pid, cc, m, pcr, js);
    var front, top := [packets[0]] + Pick(packets, js), if js == [] then 1 else js[|js| - 1] + 1;
    var e := DecodeEach(pids, front);
    NextStart(e.0, pid, cc, m, pcr, r, top, n, m2, pcr2);
    DecodeEachSnoc(pids, front, FirstPacket(pid, AdvanceCc(cc, n), m2, pcr2));
    DeliveryOf(pid, cc, m, pcr, r, top);
    OutputsJoin(e.1, DecodeAll(e.0, FirstPacket(pid, AdvanceCc(cc, n), m2, pcr2), 0).out);
  }

  lemma OutputsJoin(a: seq<Delivered>, b: seq<Delivered>)
    ensures [] + b == b && a + [] == a && ([] + []) + b == b
  {
  }

  /** A message that is done is delivered whole. */
  lemma DeliveryOf(pid: int, cc: byte, m: Message, pcr: Option<int>, r: Receiver, top: nat)
    requires m.payload != [] && Sound(m, pcr, r, top) && top <= |MessagePackets(pid, cc, m, pcr)|
    ensures !r.Thrown? ==> r.taken != []
    ensures var n := |MessagePackets(pid, cc, m, pcr)|;
            && (Delivery(m, cc, n, r).Some? ==> !r.Thrown? && Delivery(m, cc, n, r).value == r.taken)
            && (r.Done? ==> Delivery(m, cc, n, r).Some? && ChunksOf(m, pcr, r.taken) == m.payload)
            && (StartIsMissed(m, cc, n, r) ==> r.Holding? && Delivery(m, cc, n, r) == None)
  {
    hide MessagePackets, ChunksOf, Increasing, AwaitedLength;
    if r.Holding? && InLine((cc + r.taken[|r.taken| - 1]) % 16, (cc + |MessagePackets(pid, cc, m, pcr)|) % 16) {
      NotBoth((cc + r.taken[|r.taken| - 1]) % 16, (cc + |MessagePackets(pid, cc, m, pcr)|) % 16);
    }
    if r.Done? {
      Loosen(r.taken, top, |MessagePackets(pid, cc, m, pcr)|);
      WholeIs(pid, cc, m, pcr, r.taken);
    }
  }

  // ---------- which packets can be missing ----------

  lemma InLineIs(cc: int, a: int, b: int)
    ensures InLine((cc + a) % 16, (cc + b) % 16) <==> (b - a) % 16 == 1
  {
  }

  /** Every step from one packet taken to the next one is 1 modulo 16. */
  predicate StepsOfOne(taken: seq<nat>) { forall i :: 0 < i < |taken| ==> (taken[i] as int - taken[i - 1]) % 16 == 1 }

  /** Taken from the first packet on, in steps of 1 modulo 16, among those that arrived. */
  predicate InSteps(r: Receiver, js: seq<nat>) {
    !r.Thrown? ==>
      r.taken != [] && r.taken[0] == 0 && StepsOfOne(r.taken) && forall i :: 0 < i < |r.taken| ==> r.taken[i] in js
  }

  lemma TakeInSteps(m: Message, pcr: Option<int>, cc: byte, r: Receiver, front: seq<nat>, j: nat)
    requires m.payload != [] && InSteps(r, front)
    ensures r.Holding? ==> r.taken != []
    ensures InSteps(Take(m, pcr, cc, r, j), front + [j])
  {
    hide ChunksOf, InLine, ReadsAsLate, AwaitedLength;
    assert forall x :: x in front ==> x in front + [j];
    if r.Holding? {
      InLineIs(cc, r.taken[|r.taken| - 1], j);
      assert forall i :: 0 <= i < |r.taken| ==> (r.taken + [j])[i] == r.taken[i];
    }
  }

  lemma {:induction false} TakenSteps(m: Message, pcr: Option<int>, cc: byte, js: seq<nat>)
    requires m.payload != []
    ensures InSteps(TakeAll(m, pcr, cc, js), js)
    decreases |js|
  {
    if js != [] {
      hide Take, First, InSteps;
      var front, j := js[..|js| - 1], js[|js| - 1];
      assert js == front + [j];
      TakenSteps(m, pcr, cc, front);
      TakeInSteps(m, pcr, cc, TakeAll(m, pcr, cc, front), front, j);
    }
  }

  /** Main result: whatever is missing, a message that is delivered lacks packets only in holes of a multiple of 16,
      in its middle and at its end. In particular the number of packets that it lacks is a multiple of 16. */
  lemma HolesAreSixteens(pid: int, cc: byte, m: Message, pcr: Option<int>, js: seq<nat>)
    requires m.payload != [] && Increasing([0] + js, |MessagePackets(pid, cc, m, pcr)|)
    requires var r := TakeAll(m, pcr, cc, js); Delivery(m, cc, |MessagePackets(pid, cc, m, pcr)|, r).Some?
    ensures var n := |MessagePackets(pid, cc, m, pcr)|;
            var taken := Delivery(m, cc, n, TakeAll(m, pcr, cc, js)).value;
            && taken != [] && taken[0] == 0 && (forall i :: 0 < i < |taken| ==> taken[i] in js)
            && StepsOfOne(taken + [n]) && (n - |taken|) % 16 == 0
  {
    hide MessagePackets, TakeAll, ChunksOf, InLine, StepsOfOne, AwaitedLength, Increasing, Range;
    var n, r := |MessagePackets(pid, cc, m, pcr)|, TakeAll(m, pcr, cc, js);
    TakenSteps(m, pcr, cc, js);
    TakeAllSound(pid, cc, m, pcr, js);
    var last := r.taken[|r.taken| - 1];
    if r.Done? {
      WholeIs(pid, cc, m, pcr, r.taken);
      RangeSnoc(0, n - 1);
      assert last == n - 1;
    } else {
      InLineIs(cc, last, n);
    }
    StepsCount(r.taken, n);
  }

  lemma {:induction false} StepsCount(taken: seq<nat>, n: nat)
    requires taken != [] && taken[0] == 0 && StepsOfOne(taken) && (n - taken[|taken| - 1]) % 16 == 1
    ensures StepsOfOne(taken + [n]) && (n - |taken|) % 16 == 0
    decreases |taken|
  {
    var last := taken[|taken| - 1];
    var all := taken + [n];
    assert all[|taken|] == n && forall i :: 0 <= i < |taken| ==> all[i] == taken[i];
    if |taken| > 1 {
      var front := taken[..|taken| - 1];
      StepsCount(front, last);
    }
  }

  lemma {:induction false} TakeAllSound(pid: int, cc: byte, m: Message, pcr: Option<int>, js: seq<nat>)
    requires m.payload != [] && Increasing([0] + js, |MessagePackets(pid, cc, m, pcr)|)
    ensures var r, n := TakeAll(m, pcr, cc, js), |MessagePackets(pid, cc, m, pcr)|;
            && Sound(m, pcr, r, if js == [] then 1 else js[|js| - 1] + 1)
            && (!r.Thrown? ==> r.taken != [] && Increasing(r.taken, n))
            && (r.Done? ==> |ChunksOf(m, pcr, r.taken)| >= |m.payload|)
    decreases |js|
  {
    hide MessagePackets, Take, ChunksOf, Increasing, First, Start;
    var n := |MessagePackets(pid, cc, m, pcr)|;
    BelowAll(js, n);
    if js == [] {
      FirstMeans(pid, cc, m, pcr);
      if !First(m, pcr).Thrown? { Loosen(First(m, pcr).taken, 1, n); }
    } else {
      var front, j := js[..|js| - 1], js[|js| - 1];
      assert [0] + js == ([0] + front) + [j];
      IncreasingFront([0] + front, j, n);
      TakeAllSound(pid, cc, m, pcr, front);
      TakeSound(m, pcr, cc, TakeAll(m, pcr, cc, front), if front == [] then 1 else front[|front| - 1] + 1, j);
      var r := TakeAll(m, pcr, cc, js);
      if !r.Thrown? { Loosen(r.taken, j + 1, n); }
    }
  }

  // ---------- one gap ----------

  /** A gap of `gap` packets behind the counter `held` is not noticed: the packets behind it follow, or read as old. */
  predicate Unseen(held: int, gap: nat) { gap % 16 == 0 || (held < 15 && gap % 16 >= 15 - held) }

  /** The packets then lacking: those that read as old are lost too. */
  function Lacking(gap: nat): nat { (gap + 15) / 16 * 16 }

  /** Packets behind an unnoticed gap read as old until 16, 32, ... of them are lacking, and then they follow. */
  lemma UnseenGap(cc: int, i: nat, gap: nat, j: nat)
    requires cc >= 0 && i > 0 && gap > 0 && Unseen((cc + (i - 1)) % 16, gap) && i + gap <= j
    ensures gap <= Lacking(gap)
    ensures var held, c := (cc + (i - 1)) % 16, (cc + j) % 16;
            && (j < i + Lacking(gap) ==> ReadsAsLate(held, c) && !InLine(held, c))
            && (j == i + Lacking(gap) ==> InLine(held, c))
  {
    var held, q, t := (cc + (i - 1)) % 16, gap / 16, gap % 16;
    var a, d := (cc + (i - 1)) / 16, j - (i - 1);
    assert gap == 16 * q + t && cc + (i - 1) == 16 * a + held;
    assert Lacking(gap) == if t == 0 then gap else 16 * q + 16;
    if j < i + Lacking(gap) {
      var s := d - 16 * q;
      assert t < s <= 16 && cc + j == 16 * (a + q + 1) + (held + s - 16);
      ModUnique(cc + j, 16, a + q + 1, held + s - 16);
    } else if j == i + Lacking(gap) {
      InLineIs(cc, i - 1, j);
    }
  }

  /** Behind any other gap the first packet throws the message away. */
  lemma SeenGap(cc: int, i: nat, gap: nat)
    requires cc >= 0 && i > 0 && gap > 0 && !Unseen((cc + (i - 1)) % 16, gap)
    ensures var held, c := (cc + (i - 1)) % 16, (cc + (i + gap)) % 16; !ReadsAsLate(held, c) && !InLine(held, c)
  {
    var held, q, t := (cc + (i - 1)) % 16, gap / 16, gap % 16;
    var a := (cc + (i - 1)) / 16;
    assert cc + (i + gap) == 16 * (a + q) + (held + t + 1);
    if held == 15 {
      ModUnique(cc + (i + gap), 16, a + q + 1, t);
    } else {
      ModUnique(cc + (i + gap), 16, a + q, held + t + 1);
    }
  }

  /** The packets from 1 on arrive without a gap, short of the whole message. */
  lemma {:induction false} TakesInOrder(pid: int, cc: byte, m: Message, pcr: Option<int>, i: nat)
    requires m.payload != [] && 0 < i < |MessagePackets(pid, cc, m, pcr)|
    ensures TakeAll(m, pcr, cc, Range(1, i)) == Holding(Range(0, i))
    decreases i
  {
    hide *;
    NotWhole(pid, cc, m, pcr, i);
    RangeSnoc(0, i - 1);
    RangeSnoc(0, 0);
    RangeSnoc(1, if i > 1 then i - 1 else 1);
    if i == 1 {
      assert [] + [0] == [0];
      FirstIs(m, pcr, cc);
    } else {
      TakesInOrder(pid, cc, m, pcr, i - 1);
      TakeAllSnoc(m, pcr, cc, Range(1, i - 1), i - 1);
      RangeLast(0, i - 1);
      InLineIs(cc, i - 2, i - 1);
      TakeIs(m, pcr, cc, Range(0, i - 1), i - 1);
    }
  }

  lemma FirstIs(m: Message, pcr: Option<int>, cc: byte)
    requires m.payload != [] && |ChunksOf(m, pcr, [0])| < |m.payload|
    ensures TakeAll(m, pcr, cc, []) == Holding([0])
  {
    AwaitedIs(m);
    hide ChunksOf, AwaitedLength;
  }

  lemma NotWhole(pid: int, cc: byte, m: Message, pcr: Option<int>, i: nat)
    requires m.payload != [] && 0 < i < |MessagePackets(pid, cc, m, pcr)|
    ensures |ChunksOf(m, pcr, Range(0, i))| < |m.payload|
  {
    hide *;
    RunOfChunks(pid, cc, m, pcr, [], 0, i);
    FirstPart(pid, cc, m, pcr);
    StartGrows(pid, cc, m, pcr, 0, i);
    ChunkIs(pid, cc, m, pcr, i);
    NoChunks(m, pcr);
    assert [] + Range(0, i) == Range(0, i);
  }

  lemma RangeLast(a: nat, b: nat)
    requires a < b
    ensures Range(a, b) != [] && Range(a, b)[|Range(a, b)| - 1] == b - 1
  {
  }

  /** With a hole in it the message is not whole. */
  lemma HoleNotWhole(pid: int, cc: byte, m: Message, pcr: Option<int>, i: nat, k: nat, b: nat)
    requires m.payload != [] && i < k <= b <= |MessagePackets(pid, cc, m, pcr)|
    ensures Start(m, pcr, i) <= Start(m, pcr, k) <= Start(m, pcr, b) <= |m.payload|
    ensures ChunksOf(m, pcr, Range(0, i) + Range(k, b))
            == m.payload[..Start(m, pcr, i)] + m.payload[Start(m, pcr, k)..Start(m, pcr, b)]
    ensures |ChunksOf(m, pcr, Range(0, i) + Range(k, b))| < |m.payload|
  {
    hide *;
    FirstPart(pid, cc, m, pcr);
    NoChunks(m, pcr);
    RunOfChunks(pid, cc, m, pcr, [], 0, i);
    RunOfChunks(pid, cc, m, pcr, Range(0, i), k, b);
    StartGrows(pid, cc, m, pcr, i, k);
    StartGrows(pid, cc, m, pcr, k, b);
    assert [] + Range(0, i) == Range(0, i);
    assert [] + m.payload[0..Start(m, pcr, i)] == m.payload[..Start(m, pcr, i)];
  }

  lemma TakeIs(m: Message, pcr: Option<int>, cc: byte, taken: seq<nat>, j: nat)
    requires m.payload != [] && taken != []
    ensures var last := taken[|taken| - 1];
            && (InLine((cc + last) % 16, (cc + j) % 16) && |ChunksOf(m, pcr, taken + [j])| < |m.payload|
                ==> Take(m, pcr, cc, Holding(taken), j) == Holding(taken + [j]))
            && (!InLine((cc + last) % 16, (cc + j) % 16) && ReadsAsLate((cc + last) % 16, (cc + j) % 16)
                ==> Take(m, pcr, cc, Holding(taken), j) == Holding(taken))
            && (!InLine((cc + last) % 16, (cc + j) % 16) && !ReadsAsLate((cc + last) % 16, (cc + j) % 16)
                ==> Take(m, pcr, cc, Holding(taken), j) == Thrown)
            && Take(m, pcr, cc, Thrown, j) == Thrown
  {
    AwaitedIs(m);
    hide ChunksOf, InLine, ReadsAsLate, AwaitedLength;
  }

  /** The packets behind an unnoticed gap. */
  lemma {:induction false} UnseenTakes(pid: int, cc: byte, m: Message, pcr: Option<int>, i: nat, gap: nat, b: nat)
    requires m.payload != [] && 0 < i && 0 < gap && i + gap <= b <= |MessagePackets(pid, cc, m, pcr)|
    requires Unseen((cc + (i - 1)) % 16, gap)
    ensures var k := i + Lacking(gap);
            TakeAll(m, pcr, cc, Range(1, i) + Range(i + gap, b))
            == Holding(if b <= k then Range(0, i) else Range(0, i) + Range(k, b))
    decreases b
  {
    hide *;
    var k, j, js := i + Lacking(gap), b - 1, Range(1, i) + Range(i + gap, b);
    TakesInOrder(pid, cc, m, pcr, i);
    RangeLast(0, i);
    RangeSnoc(i + gap, if b > i + gap then j else b);
    UnseenGap(cc, i, gap, if b > i + gap then j else b);
    if b == i + gap {
      assert Range(1, i) + [] == Range(1, i);
    } else {
      UnseenTakes(pid, cc, m, pcr, i, gap, j);
      assert js == (Range(1, i) + Range(i + gap, j)) + [j];
      TakeAllSnoc(m, pcr, cc, Range(1, i) + Range(i + gap, j), j);
      if j < k {
        TakeIs(m, pcr, cc, Range(0, i), j);
      } else {
        RangeSnoc(k, j);
        HoleNotWhole(pid, cc, m, pcr, i, k, b);
        if j == k {
          assert Range(0, i) + Range(k, b) == Range(0, i) + [j];
          TakeIs(m, pcr, cc, Range(0, i), j);
        } else {
          var taken := Range(0, i) + Range(k, j);
          RangeLast(k, j);
          assert Range(0, i) + Range(k, b) == taken + [j] && taken[|taken| - 1] == j - 1;
          InLineIs(cc, j - 1, j);
          TakeIs(m, pcr, cc, taken, j);
        }
      }
    }
  }

  /** The packets behind any other gap. */
  lemma {:induction false} SeenTakes(pid: int, cc: byte, m: Message, pcr: Option<int>, i: nat, gap: nat, b: nat)
    requires m.payload != [] && 0 < i && 0 < gap && i + gap <= b <= |MessagePackets(pid, cc, m, pcr)|
    requires !Unseen((cc + (i - 1)) % 16, gap)
    ensures TakeAll(m, pcr, cc, Range(1, i) + Range(i + gap, b))
            == if b == i + gap then Holding(Range(0, i)) else Thrown
    decreases b
  {
    hide *;
    var j, js := b - 1, Range(1, i) + Range(i + gap, b);
    TakesInOrder(pid, cc, m, pcr, i);
    RangeLast(0, i);
    RangeSnoc(i + gap, if b > i + gap then j else b);
    SeenGap(cc, i, gap);
    if b == i + gap {
      assert Range(1, i) + [] == Range(1, i);
    } else {
      SeenTakes(pid, cc, m, pcr, i, gap, j);
      assert js == (Range(1, i) + Range(i + gap, j)) + [j];
      TakeAllSnoc(m, pcr, cc, Range(1, i) + Range(i + gap, j), j);
      TakeIs(m, pcr, cc, Range(0, i), j);
    }
  }

  lemma {:induction false} RangeIncreases(a: nat, b: nat, front: seq<nat>, n: nat)
    requires Increasing(front, a) && b <= n
    requires a <= b
    ensures Increasing(front + Range(a, b), n) && Increasing(front + Range(a, b), b)
    decreases b
  {
    hide Increasing, Range;
    RangeSnoc(a, if a < b then b - 1 else a);
    if a == b {
      assert front + [] == front;
      Loosen(front, a, n);
    } else {
      RangeIncreases(a, b - 1, front, n);
      Loosen(front + Range(a, b - 1), b - 1, n);
      assert front + Range(a, b) == (front + Range(a, b - 1)) + [b - 1];
      IncreasingFront(front + Range(a, b - 1), b - 1, n);
      IncreasingFront(front + Range(a, b - 1), b - 1, b);
      Loosen(front + Range(a, b - 1), b - 1, b);
    }
  }

  /** What is delivered of a message that lost `gap` packets from packet `i` on. */
  function WithGap(m: Message, pcr: Option<int>, cc: byte, n: nat, i: nat, gap: nat): Option<seq<byte>>
    requires m.payload != [] && i > 0
  {
    if AwaitedLength(m) == 0 && Unseen((cc + (i - 1)) % 16, gap) && i + Lacking(gap) <= n then
      Some(m.payload[..Start(m, pcr, i)] + m.payload[Start(m, pcr, i + Lacking(gap))..])
    else None
  }

  /** The next message is missed: its start is among the packets that read as old. */
  predicate MissedBehind(m: Message, cc: byte, n: nat, i: nat, gap: nat)
    requires i > 0
  {
    AwaitedLength(m) == 0 && Unseen((cc + (i - 1)) % 16, gap) && n < i + Lacking(gap)
  }

  lemma DeliveryIs(m: Message, cc: byte, n: nat, taken: seq<nat>)
    requires taken != []
    ensures var held, c := (cc + taken[|taken| - 1]) % 16, (cc + n) % 16;
            && Delivery(m, cc, n, Holding(taken)) == (if AwaitedLength(m) == 0 && InLine(held, c) then Some(taken) else None)
            && (StartIsMissed(m, cc, n, Holding(taken)) <==> AwaitedLength(m) == 0 && ReadsAsLate(held, c))
            && Delivery(m, cc, n, Thrown) == None && !StartIsMissed(m, cc, n, Thrown)
            && (InLine(held, c) ==> !ReadsAsLate(held, c))
  {
    hide AwaitedLength;
  }

  lemma WithGapIs(m: Message, pcr: Option<int>, cc: byte, n: nat, i: nat, gap: nat)
    requires m.payload != [] && i > 0
    ensures WithGap(m, pcr, cc, n, i, gap)
            == if AwaitedLength(m) == 0 && Unseen((cc + (i - 1)) % 16, gap) && i + Lacking(gap) <= n then
                 Some(m.payload[..Start(m, pcr, i)] + m.payload[Start(m, pcr, i + Lacking(gap))..])
               else None
    ensures MissedBehind(m, cc, n, i, gap)
            <==> AwaitedLength(m) == 0 && Unseen((cc + (i - 1)) % 16, gap) && n < i + Lacking(gap)
  {
    hide AwaitedLength, Start, Unseen, Lacking;
  }

  /** What the receiver's state after the gap delivers and misses. */
  predicate EndsWithGap(m: Message, pcr: Option<int>, cc: byte, n: nat, i: nat, gap: nat, r: Receiver)
    requires m.payload != [] && i > 0
  {
    && !r.Done? && (!r.Thrown? ==> r.taken != [])
    && var taken, bytes := Delivery(m, cc, n, r), WithGap(m, pcr, cc, n, i, gap);
       && (taken.Some? <==> bytes.Some?) && (taken.Some? ==> ChunksOf(m, pcr, taken.value) == bytes.value)
       && (StartIsMissed(m, cc, n, r) <==> MissedBehind(m, cc, n, i, gap))
  }

  lemma EndsIntro(m: Message, pcr: Option<int>, cc: byte, n: nat, i: nat, gap: nat, r: Receiver)
    requires m.payload != [] && i > 0 && !r.Done? && (!r.Thrown? ==> r.taken != [])
    requires var taken, bytes := Delivery(m, cc, n, r), WithGap(m, pcr, cc, n, i, gap);
             && (taken.Some? <==> bytes.Some?) && (taken.Some? ==> ChunksOf(m, pcr, taken.value) == bytes.value)
             && (StartIsMissed(m, cc, n, r) <==> MissedBehind(m, cc, n, i, gap))
    ensures EndsWithGap(m, pcr, cc, n, i, gap, r)
  {
    hide ChunksOf, WithGap, Delivery, MissedBehind, StartIsMissed;
  }

  lemma UnseenEnds(pid: int, cc: byte, m: Message, pcr: Option<int>, i: nat, gap: nat)
    requires m.payload != [] && 0 < i && 0 < gap && i + gap <= |MessagePackets(pid, cc, m, pcr)|
    requires Unseen((cc + (i - 1)) % 16, gap)
    ensures var n := |MessagePackets(pid, cc, m, pcr)|;
            EndsWithGap(m, pcr, cc, n, i, gap, TakeAll(m, pcr, cc, Range(1, i) + Range(i + gap, n)))
  {
    hide *;
    var n, k := |MessagePackets(pid, cc, m, pcr)|, i + Lacking(gap);
    var taken := if n <= k then Range(0, i) else Range(0, i) + Range(k, n);
    RangeLast(0, i);
    UnseenTakes(pid, cc, m, pcr, i, gap, n);
    UnseenGap(cc, i, gap, n);
    WithGapIs(m, pcr, cc, n, i, gap);
    if n > k {
      RangeLast(k, n);
      assert taken[|taken| - 1] == n - 1;
      InLineIs(cc, n - 1, n);
    }
    DeliveryIs(m, cc, n, taken);
    if k <= n {
      WithUnseenGap(pid, cc, m, pcr, i, k);
    }
    EndsIntro(m, pcr, cc, n, i, gap, Holding(taken));
  }

  lemma SeenEnds(pid: int, cc: byte, m: Message, pcr: Option<int>, i: nat, gap: nat)
    requires m.payload != [] && 0 < i && 0 < gap && i + gap <= |MessagePackets(pid, cc, m, pcr)|
    requires !Unseen((cc + (i - 1)) % 16, gap)
    ensures var n := |MessagePackets(pid, cc, m, pcr)|;
            EndsWithGap(m, pcr, cc, n, i, gap, TakeAll(m, pcr, cc, Range(1, i) + Range(i + gap, n)))
  {
    hide *;
    var n := |MessagePackets(pid, cc, m, pcr)|;
    RangeLast(0, i);
    SeenTakes(pid, cc, m, pcr, i, gap, n);
    SeenGap(cc, i, gap);
    WithGapIs(m, pcr, cc, n, i, gap);
    DeliveryIs(m, cc, n, Range(0, i));
    EndsIntro(m, pcr, cc, n, i, gap, TakeAll(m, pcr, cc, Range(1, i) + Range(i + gap, n)));
  }

  lemma WithUnseenGap(pid: int, cc: byte, m: Message, pcr: Option<int>, i: nat, k: nat)
    requires m.payload != [] && 0 < i < k <= |MessagePackets(pid, cc, m, pcr)|
    ensures var n := |MessagePackets(pid, cc, m, pcr)|;
            ChunksOf(m, pcr, if n <= k then Range(0, i) else Range(0, i) + Range(k, n))
            == m.payload[..Start(m, pcr, i)] + m.payload[Start(m, pcr, k)..]
  {
    hide *;
    var n := |MessagePackets(pid, cc, m, pcr)|;
    HoleNotWhole(pid, cc, m, pcr, i, k, n);
    ChunkIs(pid, cc, m, pcr, n - 1);
    RangeNothing(n);
    assert Range(0, i) + [] == Range(0, i);
    assert m.payload[Start(m, pcr, k)..|m.payload|] == m.payload[Start(m, pcr, k)..];
  }

  lemma RangeNothing(n: nat)
    ensures Range(n, n) == []
  {
  }

  /** Main result, with the exact condition: a message loses `gap` packets in a row, from packet `i` on (not the first
      one), and then the next message starts. It is delivered exactly when its length was not announced, the gap is
      unseen, and the packets that are then lacking are all its own; it is delivered without those. Otherwise nothing
      of it is. The next message is missed exactly when those packets go beyond the end of this one. */
  lemma OneGapExactly(pids: Pids, pid: int, cc: byte, m: Message, pcr: Option<int>, i: nat, gap: nat, m2: Message,
                      pcr2: Option<int>)
    requires IsMedia(pids, pid) && pids[pid].msg.None?
    requires HasOptionalHeader(m) && m.payload != [] && HasOptionalHeader(m2) && m2.payload != []
    requires 0 < i && 0 < gap && i + gap <= |MessagePackets(pid, cc, m, pcr)|
    ensures var packets := MessagePackets(pid, cc, m, pcr);
            && Start(m2, pcr2, 1) <= |m2.payload|
            && var n, c, k := |packets|, AdvanceCc(cc, |packets|), Start(m2, pcr2, 1);
               var out := DecodeEach(pids, packets[..i] + packets[i + gap..] + [FirstPacket(pid, c, m2, pcr2)]).1;
               var bytes := WithGap(m, pcr, cc, n, i, gap);
               out == (if bytes.Some? then [Delivered(pid, Gathered(m, cc + n, bytes.value))] else [])
                      + (if MissedBehind(m, cc, n, i, gap) then [] else ToSeq(DeliveredAt(pid, m2, c, k)))
  {
    hide *;
    var packets := MessagePackets(pid, cc, m, pcr);
    var n := |packets|;
    var js := Range(1, i) + Range(i + gap, n);
    ArrivedIncrease(i, gap, n);
    LossExactly(pids, pid, cc, m, pcr, js, m2, pcr2);
    if Unseen((cc + (i - 1)) % 16, gap) {
      UnseenEnds(pid, cc, m, pcr, i, gap);
    } else {
      SeenEnds(pid, cc, m, pcr, i, gap);
    }
    EndsElim(m, pcr, cc, n, i, gap, TakeAll(m, pcr, cc, js));
    PickedAround(packets, i, gap);
  }

  lemma EndsElim(m: Message, pcr: Option<int>, cc: byte, n: nat, i: nat, gap: nat, r: Receiver)
    requires m.payload != [] && i > 0 && EndsWithGap(m, pcr, cc, n, i, gap, r)
    ensures !r.Done? && (!r.Thrown? ==> r.taken != [])
    ensures var taken, bytes := Delivery(m, cc, n, r), WithGap(m, pcr, cc, n, i, gap);
            && (taken.Some? <==> bytes.Some?) && (taken.Some? ==> ChunksOf(m, pcr, taken.value) == bytes.value)
            && (StartIsMissed(m, cc, n, r) <==> MissedBehind(m, cc, n, i, gap))
  {
    hide ChunksOf, WithGap, Delivery, MissedBehind, StartIsMissed;
  }

  lemma ArrivedIncrease(i: nat, gap: nat, n: nat)
    requires 0 < i && i + gap <= n
    ensures var js := Range(1, i) + Range(i + gap, n);
            Increasing([0] + js, n) && (forall k :: 0 <= k < |js| ==> js[k] < n)
  {
    var js := Range(1, i) + Range(i + gap, n);
    hide Increasing, Range;
    OneIncreases();
    RangeIncreases(1, i, [0], i + gap);
    RangeIncreases(i + gap, n, [0] + Range(1, i), n);
    assert [0] + js == [0] + Range(1, i) + Range(i + gap, n);
    BelowAll(js, n);
  }

  lemma OneIncreases()
    ensures Increasing([0], 1)
  {
  }

  lemma PickedAround(packets: seq<seq<byte>>, i: nat, gap: nat)
    requires 0 < i && i + gap <= |packets|
    requires var js := Range(1, i) + Range(i + gap, |packets|); forall k :: 0 <= k < |js| ==> js[k] < |packets|
    ensures [packets[0]] + Pick(packets, Range(1, i) + Range(i + gap, |packets|)) == packets[..i] + packets[i + gap..]
  {
    RangeAt(1, i);
    RangeAt(i + gap, |packets|);
    hide Range;
    var a, b := Range(1, i), Range(i + gap, |packets|);
    var left, right := [packets[0]] + Pick(packets, a + b), packets[..i] + packets[i + gap..];
    assert |left| == |right|;
    forall k | 0 <= k < |left| ensures left[k] == right[k] {
      if 0 < k < i {
        assert (a + b)[k - 1] == a[k - 1] == k;
      } else if k >= i {
        assert (a + b)[k - 1] == b[k - i] == k + gap;
      }
    }
  }

  lemma {:induction false} RangeAt(a: nat, b: nat)
    ensures forall k :: 0 <= k < |Range(a, b)| ==> Range(a, b)[k] == a + k
    decreases b
  {
    if a < b { RangeAt(a, b - 1); }
  }

  /** Without its first packet nothing of a message is delivered. */
  lemma {:induction false} FirstPacketLost(pids: Pids, pid: int, cc: byte, m: Message, pcr: Option<int>, js: seq<nat>)
    requires IsMedia(pids, pid) && pids[pid].msg in {None, Some(FRESH_MESSAGE)} && m.payload != []
    requires forall i :: 0 <= i < |js| ==> 0 < js[i] < |MessagePackets(pid, cc, m, pcr)|
    ensures var e := DecodeEach(pids, Pick(MessagePackets(pid, cc, m, pcr), js));
            e.1 == [] && Matches(e.0, pid, m, pcr, cc, Thrown)
    decreases |js|
  {
    hide MessagePackets, DecodeAll;
    var packets := MessagePackets(pid, cc, m, pcr);
    if js == [] {
      assert Pick(packets, js) == [];
    } else {
      var front, j := js[..|js| - 1], js[|js| - 1];
      FirstPacketLost(pids, pid, cc, m, pcr, front);
      var held := DecodeEach(pids, Pick(packets, front)).0;
      assert Pick(packets, js) == Pick(packets, front) + [packets[j]];
      DecodeEachSnoc(pids, Pick(packets, front), packets[j]);
      OtherTakes(held, pid, cc, m, pcr, Thrown, j);
      assert Take(m, pcr, cc, Thrown, j) == Thrown;
    }
  }
}
