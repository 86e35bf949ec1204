/**
 Runs of SrsTsContext::encode against SrsTsContext::decode: whatever messages, codecs and resets a muxer goes through,
 a demuxer fed its packets one by one ends with the same PID table and delivers the same messages in order.
 */
module TsRun {
  import opened Bytes
  import opened TsWire
  import opened TsParse
  import opened TsPsi
  import opened TsDemux
  import opened TsReassembly

  datatype VideoCodec =
    | VideoReserved | VideoReserved1 | VideoReserved2 | VideoDisabled | SorensonH263 | ScreenVideo | On2VP6
    | On2VP6WithAlphaChannel | ScreenVideoVersion2 | AVC

  datatype AudioCodec =
    | AudioReserved1 | AudioDisabled | LinearPCMPlatformEndian | ADPCM | MP3 | LinearPCMLittleEndian
    | Nellymoser16kHzMono | Nellymoser8kHzMono | Nellymoser | G711ALaw | G711MuLaw | AudioReserved | AAC | Speex
    | MP3At8kHz | DeviceSpecificSound

  const VIDEO_PID: int := 0x100
  const AAC_PID: int := 0x101
  const MP3_PID: int := 0x102

  function VideoStream(vc: VideoCodec): byte { if vc.AVC? then STREAM_H264 else STREAM_RESERVED }

  function VideoPid(vc: VideoCodec): int { if vc.AVC? then VIDEO_PID else 0 }

  function AudioStream(ac: AudioCodec): byte {
    if ac.AAC? then STREAM_AAC else if ac.MP3? then STREAM_MP3 else STREAM_RESERVED
  }

  function AudioPid(ac: AudioCodec): int { if ac.AAC? then AAC_PID else if ac.MP3? then MP3_PID else 0 }

  /** The streams of the PMT: audio first. */
  function Infos(vc: VideoCodec, ac: AudioCodec): (infos: seq<EsInfo>)
    ensures |infos| <= 2
  {
    (if AudioStream(ac) != STREAM_RESERVED then [EsInfo(AudioStream(ac), AudioPid(ac))] else [])
    + (if vc.AVC? then [EsInfo(STREAM_H264, VIDEO_PID)] else [])
  }

  /** Video carries the clock when there is video. */
  function PcrPid(vc: VideoCodec, ac: AudioCodec): int { if vc.AVC? then VIDEO_PID else AudioPid(ac) }

  /** The encoding side of a context. */
  datatype Mux = Mux(pids: Pids, vcodec: VideoCodec, acodec: AudioCodec)

  const NEW_MUX := Mux(map[], VideoReserved, AudioReserved1)

  datatype MuxStatus = Muxed | NoStream | MissingChannel

  datatype MuxResult = MuxResult(status: MuxStatus, mux: Mux, packets: seq<seq<byte>>)

  predicate NoCodec(vc: VideoCodec, ac: AudioCodec) {
    VideoStream(vc) == STREAM_RESERVED && AudioStream(ac) == STREAM_RESERVED
  }

  /** encode_pat_pmt. */
  function EncodePatPmt(mux: Mux): MuxResult {
    if NoCodec(mux.vcodec, mux.acodec) then MuxResult(NoStream, mux, [])
    else
      var infos := Infos(mux.vcodec, mux.acodec);
      MuxResult(Muxed, mux.(pids := ApplyPmt(ApplyPat(mux.pids, PMT_PID, PAT_PID), infos, PMT_PID)),
                [PsiPacket(PAT_PID, PatSection()),
                 PsiPacket(PMT_PID, PmtSection(infos, PcrPid(mux.vcodec, mux.acodec)))])
  }

  /** The clock reference of the first packet: the dts, when it is asked for and not negative. */
  function PcrOf(m: Message, pureAudio: bool): Option<int> {
    if (m.writePcr || (pureAudio && m.IsAudio())) && m.dts >= 0 then Some(m.dts) else None
  }

  /** encode_pes. */
  function EncodePes(mux: Mux, m: Message, pid: int, stream: byte, pureAudio: bool): MuxResult {
    if m.payload == [] || stream !in {STREAM_H264, STREAM_MP3, STREAM_AAC} then MuxResult(Muxed, mux, [])
    else if pid !in mux.pids then MuxResult(MissingChannel, mux, [])
    else
      var channel := mux.pids[pid];
      var packets := MessagePackets(pid, channel.cc, m, PcrOf(m, pureAudio));
      MuxResult(Muxed, mux.(pids := mux.pids[pid := channel.(cc := AdvanceCc(channel.cc, |packets|))]), packets)
  }

  function TargetPid(m: Message, vc: VideoCodec, ac: AudioCodec): int {
    if m.IsAudio() then AudioPid(ac) else VideoPid(vc)
  }

  function TargetStream(m: Message, vc: VideoCodec, ac: AudioCodec): byte {
    if m.IsAudio() then AudioStream(ac) else VideoStream(vc)
  }

  /** SrsTsContext::encode. */
  function Encode(mux: Mux, m: Message, vc: VideoCodec, ac: AudioCodec): MuxResult {
    if NoCodec(vc, ac) then MuxResult(NoStream, mux, [])
    else
      var psi := if mux.vcodec != vc || mux.acodec != ac then EncodePatPmt(mux.(vcodec := vc, acodec := ac))
                 else MuxResult(Muxed, mux, []);
      var pes := EncodePes(psi.mux, m, TargetPid(m, vc, ac), TargetStream(m, vc, ac),
                           VideoStream(vc) == STREAM_RESERVED);
      pes.(packets := psi.packets + pes.packets)
  }

  // ---------- runs ----------

  /** One call on the muxer. */
  datatype Op = Send(m: Message, vc: VideoCodec, ac: AudioCodec) | Reset

  function Step(mux: Mux, op: Op): MuxResult {
    match op
    case Send(m, vc, ac) => Encode(mux, m, vc, ac)
    case Reset => MuxResult(Muxed, mux.(vcodec := VideoReserved, acodec := AudioReserved1), [])
  }

  function Run(mux: Mux, ops: seq<Op>): (r: MuxResult)
    decreases |ops|
  {
    if ops == [] then MuxResult(Muxed, mux, [])
    else
      var first := Step(mux, ops[0]);
      var rest := Run(first.mux, ops[1..]);
      MuxResult(if first.status.MissingChannel? then MissingChannel else rest.status, rest.mux,
                first.packets + rest.packets)
  }

  /** What a receiver can know of a message. */
  datatype Frame = Frame(sid: byte, dts: int, pts: int, payload: seq<byte>)

  function FrameOf(m: Message): Frame {
    Frame(m.sid, m.dts % 0x2_0000_0000, m.pts % 0x2_0000_0000, m.payload)
  }

  /** The reference: per PID, one message of unknown length may wait for the next one. */
  datatype Reference = Reference(waiting: map<int, Frame>, out: seq<(int, Frame)>)

  predicate Accepted(op: Op) {
    op.Send? && !NoCodec(op.vc, op.ac) && op.m.payload != [] && TargetStream(op.m, op.vc, op.ac) != STREAM_RESERVED
  }

  predicate Announced(m: Message) { PesLengthField(|m.payload|, m.dts, m.pts) > 0 }

  function WaitingAt(waiting: map<int, Frame>, pid: int): seq<(int, Frame)> {
    if pid in waiting then [(pid, waiting[pid])] else []
  }

  function ReferenceStep(state: Reference, op: Op): Reference {
    if !Accepted(op) then state
    else
      var pid, frame := TargetPid(op.m, op.vc, op.ac), FrameOf(op.m);
      Reference(if Announced(op.m) then state.waiting - {pid} else state.waiting[pid := frame],
                state.out + WaitingAt(state.waiting, pid) + (if Announced(op.m) then [(pid, frame)] else []))
  }

  function ReferenceRun(state: Reference, ops: seq<Op>): Reference
    decreases |ops|
  {
    if ops == [] then state else ReferenceRun(ReferenceStep(state, ops[0]), ops[1..])
  }

  function Frames(out: seq<Delivered>): (r: seq<(int, Frame)>)
    ensures |r| == |out|
  {
    seq(|out|, i requires 0 <= i < |out| => (out[i].pid, FrameOf(out[i].msg)))
  }

  // ---------- invariants ----------

  predicate IsMediaPid(pid: int) { pid == VIDEO_PID || pid == AAC_PID || pid == MP3_PID }

  function PidApply(pid: int): Apply {
    if pid == PAT_PID then TsWire.ApplyPAT
    else if pid == PMT_PID then TsWire.ApplyPMT
    else if pid == VIDEO_PID then ApplyVideo
    else ApplyAudio
  }

  predicate KnownPid(pid: int) { pid == PAT_PID || pid == PMT_PID || IsMediaPid(pid) }

  ghost predicate TableValid(pids: Pids) {
    forall pid :: pid in pids ==> KnownPid(pid) && pids[pid].apply == PidApply(pid) && pids[pid].msg.None?
  }

  /** What every run keeps on the encoding side. */
  ghost predicate MuxValid(mux: Mux) {
    && TableValid(mux.pids)
    && (!NoCodec(mux.vcodec, mux.acodec) ==>
          PMT_PID in mux.pids
          && (mux.vcodec.AVC? ==> VIDEO_PID in mux.pids)
          && (AudioStream(mux.acodec) != STREAM_RESERVED ==> AudioPid(mux.acodec) in mux.pids))
  }

  ghost predicate SameTable(a: Pids, b: Pids) {
    a.Keys == b.Keys && forall pid :: pid in a ==> a[pid].apply == b[pid].apply && a[pid].stream == b[pid].stream
  }

  /** The demuxer is in step: same table, and every held message is a waiting one of the reference. */
  ghost predicate InStep(enc: Pids, dec: Pids, waiting: map<int, Frame>) {
    && SameTable(enc, dec)
    && (forall pid :: pid in dec ==> ChannelReady(dec[pid], enc[pid].cc))
    && (forall pid :: pid in waiting <==> pid in dec && dec[pid].msg.Some?)
    && (forall pid :: pid in waiting ==> FrameOf(dec[pid].msg.value) == waiting[pid])
  }

  // ---------- PAT and PMT keep both sides in step ----------

  lemma SetPidInStep(enc: Pids, dec: Pids, waiting: map<int, Frame>, pid: int, apply: Apply, stream: byte)
    requires InStep(enc, dec, waiting)
    ensures InStep(SetPid(enc, pid, apply, stream), SetPid(dec, pid, apply, stream), waiting)
  {
  }

  lemma {:induction false} ApplyInfosInStep(enc: Pids, dec: Pids, waiting: map<int, Frame>, infos: seq<EsInfo>)
    requires InStep(enc, dec, waiting)
    ensures InStep(ApplyInfos(enc, infos), ApplyInfos(dec, infos), waiting)
    decreases |infos|
  {
    hide InStep;
    if infos != [] {
      var info := infos[0];
      SetPidInStep(enc, dec, waiting, info.pid, StreamApply(info.stream), info.stream);
      ApplyInfosInStep(ApplyInfo(enc, info), ApplyInfo(dec, info), waiting, infos[1..]);
    }
  }

  function PsiTables(pids: Pids, vc: VideoCodec, ac: AudioCodec): Pids {
    ApplyPmt(ApplyPat(pids, PMT_PID, PAT_PID), Infos(vc, ac), PMT_PID)
  }

  lemma PsiTablesInStep(enc: Pids, dec: Pids, waiting: map<int, Frame>, vc: VideoCodec, ac: AudioCodec)
    requires InStep(enc, dec, waiting)
    ensures InStep(PsiTables(enc, vc, ac), PsiTables(dec, vc, ac), waiting)
  {
    hide InStep, ApplyInfos, SetPid;
    SetPidInStep(enc, dec, waiting, PMT_PID, TsWire.ApplyPMT, STREAM_RESERVED);
    var enc1 := SetPid(enc, PMT_PID, TsWire.ApplyPMT, STREAM_RESERVED);
    var dec1 := SetPid(dec, PMT_PID, TsWire.ApplyPMT, STREAM_RESERVED);
    SetPidInStep(enc1, dec1, waiting, PAT_PID, TsWire.ApplyPAT, STREAM_RESERVED);
    var enc2, dec2 := ApplyPat(enc, PMT_PID, PAT_PID), ApplyPat(dec, PMT_PID, PAT_PID);
    ApplyInfosInStep(enc2, dec2, waiting, Infos(vc, ac));
    SetPidInStep(ApplyInfos(enc2, Infos(vc, ac)), ApplyInfos(dec2, Infos(vc, ac)), waiting,
                 PMT_PID, TsWire.ApplyPMT, STREAM_RESERVED);
  }

  lemma SetKnownPid(pids: Pids, pid: int, stream: byte)
    requires TableValid(pids) && KnownPid(pid)
    ensures var r := SetPid(pids, pid, PidApply(pid), stream); TableValid(r) && r.Keys == pids.Keys + {pid}
  {
  }

  lemma {:induction false} ApplyInfosValid(pids: Pids, infos: seq<EsInfo>)
    requires TableValid(pids)
    requires forall i :: 0 <= i < |infos| ==>
               IsMediaPid(infos[i].pid) && StreamApply(infos[i].stream) == PidApply(infos[i].pid)
    ensures var r := ApplyInfos(pids, infos);
            TableValid(r) && pids.Keys <= r.Keys && forall i :: 0 <= i < |infos| ==> infos[i].pid in r
    decreases |infos|
  {
    hide TableValid, SetPid;
    if infos != [] {
      SetKnownPid(pids, infos[0].pid, infos[0].stream);
      var next := ApplyInfo(pids, infos[0]);
      ApplyInfosValid(next, infos[1..]);
      assert forall i :: 1 <= i < |infos| ==> infos[i] == infos[1..][i - 1];
    }
  }

  /** PAT and PMT leave a valid muxer, whatever the codecs were before. */
  lemma PsiKeepsMuxValid(pids: Pids, vc: VideoCodec, ac: AudioCodec)
    requires TableValid(pids)
    ensures MuxValid(Mux(PsiTables(pids, vc, ac), vc, ac))
  {
    hide TableValid, SetPid, ApplyInfos;
    SetKnownPid(pids, PMT_PID, STREAM_RESERVED);
    SetKnownPid(SetPid(pids, PMT_PID, TsWire.ApplyPMT, STREAM_RESERVED), PAT_PID, STREAM_RESERVED);
    var p := ApplyPat(pids, PMT_PID, PAT_PID);
    var infos := Infos(vc, ac);
    ApplyInfosValid(p, infos);
    SetKnownPid(ApplyInfos(p, infos), PMT_PID, STREAM_RESERVED);
    if AudioStream(ac) != STREAM_RESERVED { assert infos[0].pid == AudioPid(ac); }
    if vc.AVC? { assert infos[|infos| - 1].pid == VIDEO_PID; }
  }

  lemma PsiPacketDecodes(pids: Pids, pid: int, section: seq<byte>, applied: Pids)
    requires pid == PAT_PID || (pid == PMT_PID && pid in pids && pids[pid].apply == TsWire.ApplyPMT)
    requires |section| <= 100
    requires DecodePsi(PsiPacket(pid, section), 4, true, pid == PAT_PID, pid, pids)
             == PsiResult(Success, applied, PACKET_SIZE)
    ensures DecodeAll(pids, PsiPacket(pid, section), 0) == AllResult(Success, applied, [])
  {
    hide PsiPacket, DecodePsi, DecodePes, DecodeAll, DecodeAf;
    var d := PsiPacket(pid, section);
    PsiPacketParts(d, pid, section);
    HeaderFields(d, true, pid, CONTROL_PAYLOAD, 0);
    OnePacketStream(pids, d, DecodePacket(pids, d, 0));
  }

  lemma InfosInRange(vc: VideoCodec, ac: AudioCodec)
    ensures forall i :: 0 <= i < |Infos(vc, ac)| ==> 0 <= Infos(vc, ac)[i].pid < 0x2000
  {
  }

  /** Decoding PAT and PMT builds the encoder's table and disturbs no message. */
  lemma PsiDecodes(dec: Pids, vc: VideoCodec, ac: AudioCodec)
    ensures DecodeRun(dec,
            [PsiPacket(PAT_PID, PatSection()), PsiPacket(PMT_PID, PmtSection(Infos(vc, ac), PcrPid(vc, ac)))])
         == AllResult(Success, PsiTables(dec, vc, ac), [])
  {
    InfosInRange(vc, ac);
    hide PsiPacket, PatSection, PmtSection, DecodePsi, DecodeAll, ApplyPmt, DecodeRun, Infos, PcrPid;
    var infos := Infos(vc, ac);
    var pat := PsiPacket(PAT_PID, PatSection());
    var pmt := PsiPacket(PMT_PID, PmtSection(infos, PcrPid(vc, ac)));
    EncodedPatDecodes(dec);
    var dec1 := ApplyPat(dec, PMT_PID, PAT_PID);
    PsiPacketDecodes(dec, PAT_PID, PatSection(), dec1);
    EncodedPmtDecodes(dec1, infos, PcrPid(vc, ac));
    PsiPacketDecodes(dec1, PMT_PID, PmtSection(infos, PcrPid(vc, ac)), ApplyPmt(dec1, infos, PMT_PID));
    DecodeRunNil(PsiTables(dec, vc, ac));
    DecodeRunCons(dec1, pmt, []);
    DecodeRunCons(dec, pat, [pmt]);
    assert [pat] + [pmt] == [pat, pmt];
    assert [pmt] + [] == [pmt];
  }

  // ---------- one message ----------

  lemma HeldFrame(m: Message, last: byte, n: nat)
    requires m.payload != [] && n == |m.payload|
    ensures IsComplete(m, n) <==> Announced(m)
    ensures FrameOf(Partial(m, last, n)) == FrameOf(m)
    ensures !Announced(m) ==> IsPending(Partial(m, last, n), NextCc(last))
  {
    assert m.payload[..n] == m.payload;
  }

  lemma CcAfterLast(cc: byte, n: nat)
    requires n > 0
    ensures NextCc(AdvanceCc(cc, n - 1)) == AdvanceCc(cc, n)
  {
  }

  /** Replacing one channel on both sides keeps them in step. */
  lemma UpdateInStep(enc: Pids, dec: Pids, waiting: map<int, Frame>, pid: int, cc: byte, msg: Option<Message>,
                     waiting1: map<int, Frame>)
    requires InStep(enc, dec, waiting) && pid in enc
    requires msg.Some? ==> IsPending(msg.value, cc)
    requires waiting1 == if msg.Some? then waiting[pid := FrameOf(msg.value)] else waiting - {pid}
    ensures InStep(enc[pid := enc[pid].(cc := cc)], SetMsg(dec, pid, msg), waiting1)
  {
  }

  lemma FramesOfOptions(pid: int, msg: Option<Message>, cc: int, out: Option<Delivered>)
    ensures Frames(PendingOut(pid, msg, cc) + ToSeq(out))
         == (if msg.Some? then [(pid, FrameOf(msg.value))] else [])
            + (if out.Some? then [(out.value.pid, FrameOf(out.value.msg))] else [])
  {
  }

  lemma ChannelInStep(enc: Pids, dec: Pids, waiting: map<int, Frame>, pid: int)
    requires InStep(enc, dec, waiting) && pid in enc
    ensures pid in dec && dec[pid].apply == enc[pid].apply && ChannelReady(dec[pid], enc[pid].cc)
    ensures WaitingAt(waiting, pid) == if dec[pid].msg.Some? then [(pid, FrameOf(dec[pid].msg.value))] else []
  {
  }

  /** The packets of an accepted message, decoded. */
  lemma SendDecodes(mux: Mux, dec: Pids, state: Reference, m: Message, vc: VideoCodec, ac: AudioCodec)
    requires MuxValid(mux) && mux.vcodec == vc && mux.acodec == ac && !NoCodec(vc, ac)
    requires HasOptionalHeader(m) && InStep(mux.pids, dec, state.waiting)
    requires Accepted(Send(m, vc, ac))
    ensures var r := EncodePes(mux, m, TargetPid(m, vc, ac), TargetStream(m, vc, ac),
                               VideoStream(vc) == STREAM_RESERVED);
            var next := ReferenceStep(state, Send(m, vc, ac));
            var d := DecodeRun(dec, r.packets);
            r.status == Muxed && MuxValid(r.mux) && d.status == Success
            && r.mux.vcodec == vc && r.mux.acodec == ac
            && InStep(r.mux.pids, d.pids, next.waiting) && next.out == state.out + Frames(d.out)
  {
    hide DecodeRun, MessagePackets, Partial, FrameOf, Frames, IsPending, IsComplete, Announced, InStep;
    var pid, cc := TargetPid(m, vc, ac), mux.pids[TargetPid(m, vc, ac)].cc;
    var pcr := PcrOf(m, VideoStream(vc) == STREAM_RESERVED);
    var packets := MessagePackets(pid, cc, m, pcr);
    var last, n := AdvanceCc(cc, |packets| - 1), |m.payload|;
    ChannelInStep(mux.pids, dec, state.waiting, pid);
    MessageDecodes(dec, pid, cc, m, pcr);
    HeldFrame(m, last, n);
    CcAfterLast(cc, |packets|);
    UpdateInStep(mux.pids, dec, state.waiting, pid, AdvanceCc(cc, |packets|), Held(m, last, n),
                 ReferenceStep(state, Send(m, vc, ac)).waiting);
    FramesOfOptions(pid, dec[pid].msg, cc, DeliveredAt(pid, m, last, n));
    assert state.out + WaitingAt(state.waiting, pid) + (if Announced(m) then [(pid, FrameOf(m))] else [])
        == state.out + (WaitingAt(state.waiting, pid) + (if Announced(m) then [(pid, FrameOf(m))] else []));
  }

  /** Nothing is sent for a message without payload or without an enabled stream. */
  lemma NothingSent(mux: Mux, m: Message, vc: VideoCodec, ac: AudioCodec)
    requires !NoCodec(vc, ac) && !Accepted(Send(m, vc, ac))
    ensures EncodePes(mux, m, TargetPid(m, vc, ac), TargetStream(m, vc, ac), VideoStream(vc) == STREAM_RESERVED)
         == MuxResult(Muxed, mux, [])
  {
  }

  /** The PSI part of encode. */
  lemma PsiStep(mux: Mux, dec: Pids, waiting: map<int, Frame>, vc: VideoCodec, ac: AudioCodec)
    requires MuxValid(mux) && InStep(mux.pids, dec, waiting) && !NoCodec(vc, ac)
    ensures var r := if mux.vcodec != vc || mux.acodec != ac then EncodePatPmt(mux.(vcodec := vc, acodec := ac))
                     else MuxResult(Muxed, mux, []);
            var d := DecodeRun(dec, r.packets);
            MuxValid(r.mux) && r.mux.vcodec == vc && r.mux.acodec == ac
            && d.status == Success && d.out == [] && InStep(r.mux.pids, d.pids, waiting)
  {
    hide DecodeRun, PsiPacket, PatSection, PmtSection, InStep;
    if mux.vcodec != vc || mux.acodec != ac {
      PsiKeepsMuxValid(mux.pids, vc, ac);
      PsiDecodes(dec, vc, ac);
      PsiTablesInStep(mux.pids, dec, waiting, vc, ac);
    } else {
      DecodeRunNil(dec);
    }
  }

  /** One call keeps the muxer valid and the demuxer in step, and delivers what the reference delivers. */
  lemma StepInStep(mux: Mux, dec: Pids, state: Reference, op: Op)
    requires MuxValid(mux) && InStep(mux.pids, dec, state.waiting)
    requires op.Send? ==> HasOptionalHeader(op.m)
    ensures var r := Step(mux, op);
            var d := DecodeRun(dec, r.packets);
            var next := ReferenceStep(state, op);
            r.status != MissingChannel && MuxValid(r.mux) && d.status == Success
            && InStep(r.mux.pids, d.pids, next.waiting) && next.out == state.out + Frames(d.out)
  {
    hide DecodeRun, InStep, EncodePatPmt, EncodePes, MuxValid;
    DecodeRunNil(dec);
    if op.Reset? {
      ResetValid(mux);
    } else if !NoCodec(op.vc, op.ac) {
      var m, vc, ac := op.m, op.vc, op.ac;
      PsiStep(mux, dec, state.waiting, vc, ac);
      var psi := if mux.vcodec != vc || mux.acodec != ac then EncodePatPmt(mux.(vcodec := vc, acodec := ac))
                 else MuxResult(Muxed, mux, []);
      var d1 := DecodeRun(dec, psi.packets);
      var pes := EncodePes(psi.mux, m, TargetPid(m, vc, ac), TargetStream(m, vc, ac),
                           VideoStream(vc) == STREAM_RESERVED);
      DecodeRunAppend(dec, psi.packets, pes.packets);
      DecodeRunNil(d1.pids);
      if Accepted(op) {
        SendDecodes(psi.mux, d1.pids, state, m, vc, ac);
      } else {
        NothingSent(psi.mux, m, vc, ac);
      }
    }
  }

  lemma ResetValid(mux: Mux)
    requires MuxValid(mux)
    ensures MuxValid(mux.(vcodec := VideoReserved, acodec := AudioReserved1))
  {
  }

  lemma FramesAppend(a: seq<Delivered>, b: seq<Delivered>)
    ensures Frames(a + b) == Frames(a) + Frames(b)
  {
  }

  lemma {:induction false} RunInStep(mux: Mux, dec: Pids, state: Reference, ops: seq<Op>)
    requires MuxValid(mux) && InStep(mux.pids, dec, state.waiting)
    requires forall i :: 0 <= i < |ops| && ops[i].Send? ==> HasOptionalHeader(ops[i].m)
    ensures var r := Run(mux, ops);
            var d := DecodeRun(dec, r.packets);
            var end := ReferenceRun(state, ops);
            r.status != MissingChannel && MuxValid(r.mux) && d.status == Success
            && InStep(r.mux.pids, d.pids, end.waiting) && end.out == state.out + Frames(d.out)
    decreases |ops|
  {
    hide DecodeRun, InStep, MuxValid, Step, ReferenceStep, Frames;
    if ops == [] {
      DecodeRunNil(dec);
      FramesNil();
    } else {
      StepInStep(mux, dec, state, ops[0]);
      var first := Step(mux, ops[0]);
      var d1 := DecodeRun(dec, first.packets);
      var state1 := ReferenceStep(state, ops[0]);
      RunInStep(first.mux, d1.pids, state1, ops[1..]);
      var rest := Run(first.mux, ops[1..]);
      DecodeRunAppend(dec, first.packets, rest.packets);
      FramesAppend(d1.out, DecodeRun(d1.pids, rest.packets).out);
    }
  }

  lemma FramesNil()
    ensures Frames([]) == []
  {
  }

  /** Main result: every run of a fresh muxer, decoded packet by packet by a fresh demuxer. */
  lemma EveryRunRoundTrips(ops: seq<Op>)
    requires forall i :: 0 <= i < |ops| && ops[i].Send? ==> HasOptionalHeader(ops[i].m)
    ensures var r := Run(NEW_MUX, ops);
            var d := DecodeRun(map[], r.packets);
            var end := ReferenceRun(Reference(map[], []), ops);
            && r.status != MissingChannel
            && d.status == Success
            && SameTable(r.mux.pids, d.pids)
            && Frames(d.out) == end.out
            && (forall pid :: pid in end.waiting <==> pid in d.pids && d.pids[pid].msg.Some?)
            && (forall pid :: pid in end.waiting ==> FrameOf(d.pids[pid].msg.value) == end.waiting[pid])
  {
    hide Run, DecodeRun, ReferenceRun, Frames;
    RunInStep(NEW_MUX, map[], Reference(map[], []), ops);
    var out := Frames(DecodeRun(map[], Run(NEW_MUX, ops).packets).out);
    assert [] + out == out;
  }

  // ---------- what the reference means per PID ----------

  /** The frames sent to one PID, in order. */
  function Sent(ops: seq<Op>, pid: int): (r: seq<Frame>)
    decreases |ops|
  {
    if ops == [] then []
    else
      var before, op := ops[..|ops| - 1], ops[|ops| - 1];
      Sent(before, pid) + (if Accepted(op) && TargetPid(op.m, op.vc, op.ac) == pid then [FrameOf(op.m)] else [])
  }

  /** The frames delivered on one PID, in order. */
  function Received(out: seq<(int, Frame)>, pid: int): (r: seq<Frame>)
    decreases |out|
  {
    if out == [] then []
    else
      var last := out[|out| - 1];
      Received(out[..|out| - 1], pid) + (if last.0 == pid then [last.1] else [])
  }

  lemma {:induction false} ReceivedAppend(a: seq<(int, Frame)>, b: seq<(int, Frame)>, pid: int)
    ensures Received(a + b, pid) == Received(a, pid) + Received(b, pid)
    decreases |b|
  {
    if b == [] {
      assert a + b == a;
    } else {
      assert (a + b)[..|a + b| - 1] == a + b[..|b| - 1];
      ReceivedAppend(a, b[..|b| - 1], pid);
    }
  }

  function WaitingFrame(waiting: map<int, Frame>, pid: int): seq<Frame> {
    if pid in waiting then [waiting[pid]] else []
  }

  lemma {:induction false} ReferenceRunSnoc(state: Reference, ops: seq<Op>)
    requires ops != []
    ensures ReferenceRun(state, ops) == ReferenceStep(ReferenceRun(state, ops[..|ops| - 1]), ops[|ops| - 1])
    decreases |ops|
  {
    hide ReferenceStep;
    if |ops| > 1 {
      ReferenceRunSnoc(ReferenceStep(state, ops[0]), ops[1..]);
      assert ops[1..][..|ops| - 2] == ops[..|ops| - 1][1..];
    } else {
      assert ReferenceRun(ReferenceStep(state, ops[0]), ops[1..]) == ReferenceStep(state, ops[0]);
      assert ops[..0] == [];
    }
  }

  /** On every PID, what was delivered followed by what waits is what was sent, in order. */
  lemma {:induction false} ReferenceKeepsOrder(ops: seq<Op>, pid: int)
    ensures var end := ReferenceRun(Reference(map[], []), ops);
            Received(end.out, pid) + WaitingFrame(end.waiting, pid) == Sent(ops, pid)
    decreases |ops|
  {
    if ops != [] {
      var before, op := ops[..|ops| - 1], ops[|ops| - 1];
      ReferenceKeepsOrder(before, pid);
      ReferenceRunSnoc(Reference(map[], []), ops);
      var state := ReferenceRun(Reference(map[], []), before);
      OneStepKeepsOrder(state, op, pid);
    }
  }

  lemma OneStepKeepsOrder(state: Reference, op: Op, pid: int)
    ensures var next := ReferenceStep(state, op);
            Received(next.out, pid) + WaitingFrame(next.waiting, pid)
            == Received(state.out, pid) + WaitingFrame(state.waiting, pid)
               + (if Accepted(op) && TargetPid(op.m, op.vc, op.ac) == pid then [FrameOf(op.m)] else [])
  {
    hide FrameOf, Announced, TargetPid, Received, WaitingAt, WaitingFrame;
    if Accepted(op) {
      var p, frame := TargetPid(op.m, op.vc, op.ac), FrameOf(op.m);
      var a, b := WaitingAt(state.waiting, p), if Announced(op.m) then [(p, frame)] else [];
      ReceivedAppend(state.out + a, b, pid);
      ReceivedAppend(state.out, a, pid);
      WaitingStep(state.waiting, p, frame, Announced(op.m), pid);
      var w, w' := WaitingFrame(state.waiting, pid), WaitingFrame(ReferenceStep(state, op).waiting, pid);
      FramesJoin(Received(state.out, pid), Received(a, pid), Received(b, pid), w');
      FramesJoin(Received(state.out, pid), w, if p == pid then [frame] else [], []);
    } else {
      FramesJoin(Received(state.out, pid), WaitingFrame(state.waiting, pid), [], []);
    }
  }

  lemma FramesJoin(a: seq<Frame>, b: seq<Frame>, c: seq<Frame>, d: seq<Frame>)
    ensures ((a + b) + c) + d == a + ((b + c) + d) && (a + b) + c == a + (b + c) && a + [] == a
  {
  }

  /** What a message delivers on a PID, followed by what then waits there, is what waited before and the message. */
  lemma WaitingStep(waiting: map<int, Frame>, p: int, frame: Frame, announced: bool, pid: int)
    ensures var next := if announced then waiting - {p} else waiting[p := frame];
            Received(WaitingAt(waiting, p), pid) + Received(if announced then [(p, frame)] else [], pid)
            + WaitingFrame(next, pid)
            == WaitingFrame(waiting, pid) + (if p == pid then [frame] else [])
  {
    hide Received;
    ReceivedOne(WaitingAt(waiting, p), pid);
    ReceivedOne(if announced then [(p, frame)] else [], pid);
  }

  lemma ReceivedOne(a: seq<(int, Frame)>, pid: int)
    requires |a| <= 1
    ensures Received(a, pid) == if |a| == 1 && a[0].0 == pid then [a[0].1] else []
  {
    if |a| == 1 { assert Received(a[..0], pid) == []; }
  }
}
