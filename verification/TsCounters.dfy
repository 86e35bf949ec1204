/** Continuity counters over whole runs of the muxer, and what every PID receives. */
module TsCounters {
  import opened Bytes
  import opened TsWire
  import opened TsParse
  import opened TsPsi
  import opened TsDemux
  import opened TsReassembly
  import opened TsRun
  import opened TsPacking

  predicate WholePackets(packets: seq<seq<byte>>) { forall i :: 0 <= i < |packets| ==> |packets[i]| == PACKET_SIZE }

  /** The counters of the packets on one PID, in order. */
  function Counters(packets: seq<seq<byte>>, pid: int): seq<int>
    requires WholePackets(packets)
    decreases |packets|
  {
    if packets == [] then []
    else
      var last := packets[|packets| - 1];
      Counters(packets[..|packets| - 1], pid) + (if PidOf(last) == pid then [CounterOf(last)] else [])
  }

  /** `n` counters from `cc` on, modulo 16. */
  function Counting(cc: byte, n: nat): (r: seq<int>)
    ensures |r| == n
  {
    seq(n, i requires 0 <= i < n => (cc + i) % 16)
  }

  lemma {:induction false} CountersAppend(a: seq<seq<byte>>, b: seq<seq<byte>>, pid: int)
    requires WholePackets(a) && WholePackets(b)
    ensures WholePackets(a + b) && Counters(a + b, pid) == Counters(a, pid) + Counters(b, pid)
    decreases |b|
  {
    hide PidOf, CounterOf;
    if b == [] {
      assert a + b == a;
    } else {
      var front := b[..|b| - 1];
      assert (a + b)[..|a + b| - 1] == a + front;
      CountersAppend(a, front, pid);
    }
  }

  lemma CountingAppend(cc: byte, n: nat, m: nat)
    ensures Counting(cc, n) + Counting(AdvanceCc(cc, n), m) == Counting(cc, n + m)
    ensures AdvanceCc(AdvanceCc(cc, n), m) == AdvanceCc(cc, n + m)
  {
    AdvanceTwice(cc, n, m);
    hide AdvanceCc;
    var all, tail := Counting(cc, n + m), Counting(AdvanceCc(cc, n), m);
    forall i | 0 <= i < m ensures tail[i] == all[n + i] {
      AdvanceThenCount(cc, n, i);
    }
  }

  lemma AdvanceTwice(cc: byte, n: nat, m: nat)
    ensures AdvanceCc(AdvanceCc(cc, n), m) == AdvanceCc(cc, n + m)
  {
    var v := cc as int + n;
    assert v % 256 + m == v + m - 256 * (v / 256);
  }

  lemma AdvanceThenCount(cc: byte, n: nat, i: nat)
    ensures (AdvanceCc(cc, n) + i) % 16 == (cc + (n + i)) % 16
  {
    var v := cc as int + n;
    assert v % 256 + i == v + i - 16 * (16 * (v / 256));
  }

  /** The packets of one message count on from the channel's counter. */
  lemma {:induction false} PrefixCounts(pid: int, cc: byte, m: Message, pcr: Option<int>, n: nat)
    requires m.payload != [] && 0 <= pid < 0x2000 && n <= |MessagePackets(pid, cc, m, pcr)|
    ensures Counters(MessagePackets(pid, cc, m, pcr)[..n], pid) == Counting(cc, n)
    decreases n
  {
    hide MessagePackets, CounterOf, PidOf, StartsUnit;
    var packets := MessagePackets(pid, cc, m, pcr);
    if n > 0 {
      PrefixCounts(pid, cc, m, pcr, n - 1);
      MessageCounters(pid, cc, m, pcr, n - 1);
      assert packets[..n][..n - 1] == packets[..n - 1];
      assert Counting(cc, n) == Counting(cc, n - 1) + [(cc + (n - 1)) % 16];
    }
  }

  lemma {:induction false} OtherPidCounts(packets: seq<seq<byte>>, pid: int)
    requires WholePackets(packets) && forall i :: 0 <= i < |packets| ==> PidOf(packets[i]) != pid
    ensures Counters(packets, pid) == []
    decreases |packets|
  {
    hide PidOf, CounterOf;
    if packets != [] { OtherPidCounts(packets[..|packets| - 1], pid); }
  }

  /** The counter that the next packet on `pid` gets; a channel starts at 0. */
  function CcAt(pids: Pids, pid: int): byte { if pid in pids then pids[pid].cc else 0 }

  lemma SetPidKeepsCc(pids: Pids, pid: int, apply: Apply, stream: byte, x: int)
    ensures CcAt(SetPid(pids, pid, apply, stream), x) == CcAt(pids, x)
  {
  }

  lemma {:induction false} InfosKeepCc(pids: Pids, infos: seq<EsInfo>, x: int)
    ensures CcAt(ApplyInfos(pids, infos), x) == CcAt(pids, x)
    decreases |infos|
  {
    hide SetPid;
    if infos != [] {
      var next := ApplyInfo(pids, infos[0]);
      assert CcAt(next, x) == CcAt(pids, x) by {
        forall apply: Apply ensures CcAt(SetPid(pids, infos[0].pid, apply, infos[0].stream), x) == CcAt(pids, x) {
          SetPidKeepsCc(pids, infos[0].pid, apply, infos[0].stream, x);
        }
      }
      InfosKeepCc(next, infos[1..], x);
    }
  }

  lemma PsiPacketPid(pid: int, section: seq<byte>)
    requires |section| <= 100 && 0 <= pid < 0x2000
    ensures PidOf(PsiPacket(pid, section)) == pid
  {
    var d := PsiPacket(pid, section);
    PsiPacketParts(d, pid, section);
    hide PsiPacket;
    PacketHead(d, true, pid, CONTROL_PAYLOAD, 0);
  }

  /** PAT and PMT use their own PIDs and leave all counters. */
  lemma PatPmtKeepsCounters(mux: Mux, pid: int)
    requires IsMediaPid(pid)
    ensures var r := EncodePatPmt(mux);
            WholePackets(r.packets) && Counters(r.packets, pid) == [] && CcAt(r.mux.pids, pid) == CcAt(mux.pids, pid)
  {
    var r := EncodePatPmt(mux);
    var infos := Infos(mux.vcodec, mux.acodec);
    var section := PmtSection(infos, PcrPid(mux.vcodec, mux.acodec));
    var p1 := SetPid(mux.pids, PMT_PID, TsWire.ApplyPMT, STREAM_RESERVED);
    PsiPacketPid(PAT_PID, PatSection());
    PsiPacketPid(PMT_PID, section);
    hide PsiPacket, PatSection, PmtSection, SetPid, PidOf, CounterOf;
    SetPidKeepsCc(mux.pids, PMT_PID, TsWire.ApplyPMT, STREAM_RESERVED, pid);
    SetPidKeepsCc(p1, PAT_PID, TsWire.ApplyPAT, STREAM_RESERVED, pid);
    var p2 := ApplyPat(mux.pids, PMT_PID, PAT_PID);
    InfosKeepCc(p2, infos, pid);
    SetPidKeepsCc(ApplyInfos(p2, infos), PMT_PID, TsWire.ApplyPMT, STREAM_RESERVED, pid);
    OtherPidCounts(r.packets, pid);
  }

  /** A message counts on its own PID and on no other. */
  lemma PesCounts(mux: Mux, m: Message, target: int, stream: byte, pureAudio: bool, pid: int)
    requires IsMediaPid(pid) && 0 <= target < 0x2000
    ensures var r := EncodePes(mux, m, target, stream, pureAudio);
            && WholePackets(r.packets)
            && var c := Counters(r.packets, pid);
               c == Counting(CcAt(mux.pids, pid), |c|) && CcAt(r.mux.pids, pid) == AdvanceCc(CcAt(mux.pids, pid), |c|)
  {
    hide MessagePackets, PidOf, CounterOf, Counters, PcrOf, AdvanceCc;
    var r := EncodePes(mux, m, target, stream, pureAudio);
    if r.packets == [] {
      NoPackets(pid);
      CountingNothing(CcAt(mux.pids, pid));
    } else {
      var cc, pcr := mux.pids[target].cc, PcrOf(m, pureAudio);
      if target == pid {
        MessageCounts(pid, cc, m, pcr);
      } else {
        MessageCountsElsewhere(target, cc, m, pcr, pid);
        CountingNothing(CcAt(mux.pids, pid));
      }
    }
  }

  lemma MessageCounts(pid: int, cc: byte, m: Message, pcr: Option<int>)
    requires m.payload != [] && 0 <= pid < 0x2000
    ensures var packets := MessagePackets(pid, cc, m, pcr);
            WholePackets(packets) && Counters(packets, pid) == Counting(cc, |packets|)
  {
    hide MessagePackets, Counters, Counting;
    var packets := MessagePackets(pid, cc, m, pcr);
    PrefixCounts(pid, cc, m, pcr, |packets|);
    assert packets[..|packets|] == packets;
  }

  lemma MessageCountsElsewhere(target: int, cc: byte, m: Message, pcr: Option<int>, pid: int)
    requires m.payload != [] && 0 <= target < 0x2000 && target != pid
    ensures var packets := MessagePackets(target, cc, m, pcr);
            WholePackets(packets) && Counters(packets, pid) == []
  {
    hide MessagePackets, PidOf, CounterOf, Counters;
    var packets := MessagePackets(target, cc, m, pcr);
    forall i | 0 <= i < |packets| ensures PidOf(packets[i]) == target {
      MessageCounters(target, cc, m, pcr, i);
    }
    OtherPidCounts(packets, pid);
  }

  lemma NoPackets(pid: int)
    ensures WholePackets([]) && Counters([], pid) == []
  {
  }

  lemma CountingNothing(cc: byte)
    ensures Counting(cc, 0) == [] && AdvanceCc(cc, 0) == cc
  {
  }

  lemma StepCounts(mux: Mux, op: Op, pid: int)
    requires IsMediaPid(pid)
    ensures var r := Step(mux, op);
            && WholePackets(r.packets)
            && var c := Counters(r.packets, pid);
               c == Counting(CcAt(mux.pids, pid), |c|) && CcAt(r.mux.pids, pid) == AdvanceCc(CcAt(mux.pids, pid), |c|)
  {
    hide EncodePatPmt, EncodePes, Counters, CcAt, WholePackets, VideoStream, AudioStream;
    NoPackets(pid);
    if op.Send? && !NoCodec(op.vc, op.ac) {
      var m := op.m;
      var target := TargetPid(m, op.vc, op.ac);
      var mux1 := mux.(vcodec := op.vc, acodec := op.ac);
      var psi := if mux.vcodec != op.vc || mux.acodec != op.ac then EncodePatPmt(mux1) else MuxResult(Muxed, mux, []);
      PatPmtKeepsCounters(mux1, pid);
      PesCounts(psi.mux, m, target, TargetStream(m, op.vc, op.ac), VideoStream(op.vc) == STREAM_RESERVED, pid);
      var pes := EncodePes(psi.mux, m, target, TargetStream(m, op.vc, op.ac), VideoStream(op.vc) == STREAM_RESERVED);
      CountersAppend(psi.packets, pes.packets, pid);
      assert [] + Counters(pes.packets, pid) == Counters(pes.packets, pid);
    }
  }

  lemma {:induction false} CountersOfRun(mux: Mux, ops: seq<Op>, pid: int)
    requires IsMediaPid(pid)
    ensures var r := Run(mux, ops);
            && WholePackets(r.packets)
            && var c := Counters(r.packets, pid); c == Counting(CcAt(mux.pids, pid), |c|)
    decreases |ops|
  {
    hide Step, Counters, CcAt, WholePackets, Counting, AdvanceCc;
    if ops == [] {
      NoPackets(pid);
      CountingNothing(CcAt(mux.pids, pid));
    } else {
      StepCounts(mux, ops[0], pid);
      var first := Step(mux, ops[0]);
      CountersOfRun(first.mux, ops[1..], pid);
      var rest := Run(first.mux, ops[1..]);
      CountersAppend(first.packets, rest.packets, pid);
      CountingAppend(CcAt(mux.pids, pid), |Counters(first.packets, pid)|, |Counters(rest.packets, pid)|);
    }
  }

  /** Main result: over every run of a fresh muxer, whatever messages, codec changes and resets, the counters on each
      audio or video PID are 0, 1, 2, ... modulo 16, without a gap. */
  lemma CountersNeverJump(ops: seq<Op>, pid: int)
    requires IsMediaPid(pid)
    ensures var packets := Run(NEW_MUX, ops).packets;
            && WholePackets(packets)
            && var c := Counters(packets, pid); forall i :: 0 <= i < |c| ==> c[i] == i % 16
  {
    hide Run, Counters;
    CountersOfRun(NEW_MUX, ops, pid);
    assert CcAt(NEW_MUX.pids, pid) == 0;
  }

  /** Main result: on every PID, what the demuxer delivered, followed by the message it still holds, is exactly what was
      sent there, in order, with both times modulo 2^33. */
  lemma EveryPidReceivesWhatWasSent(ops: seq<Op>, pid: int)
    requires forall i :: 0 <= i < |ops| && ops[i].Send? ==> HasOptionalHeader(ops[i].m)
    ensures var d := DecodeRun(map[], Run(NEW_MUX, ops).packets);
            && d.status == Success
            && Received(Frames(d.out), pid)
               + (if pid in d.pids && d.pids[pid].msg.Some? then [FrameOf(d.pids[pid].msg.value)] else [])
               == Sent(ops, pid)
  {
    hide Run, DecodeRun, Frames, Received, Sent, ReferenceRun, FrameOf, HasOptionalHeader;
    EveryRunRoundTrips(ops);
    ReferenceKeepsOrder(ops, pid);
  }
}
