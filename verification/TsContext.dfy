/**
 SrsTsContext: one object that muxes to a writer and demuxes from a stream. Each method is proved equal to the step
 function of TsRun or TsDemux, so the run results there are results about these methods.
 */
module TsContexts {
  import opened Bytes
  import opened TsWire
  import opened TsParse
  import opened TsPsi
  import opened TsDemux
  import opened TsRun
  import opened TsMuxer
  import opened KernelStream
  import opened TsReaders
  import Crc32

  /** SrsFileWriter, keeping the buffers that were written. */
  class FileWriter {
    var written: seq<seq<byte>>

    constructor ()
      ensures written == []
    {
      written := [];
    }

    method Write(buf: array<byte>)
      modifies this
      ensures written == old(written) + [buf[..]]
    {
      written := written + [buf[..]];
    }
  }

  /** The fields that create_pes_first gives the first packet of a message. */
  function FirstFields(pid: int, cc: byte, m: Message, pcr: Option<int>): PacketFields {
    PacketFields(true, pid, Control(pcr.Some?), cc,
                 if pcr.Some? then Some(AfFields(m.isDiscontinuity, pcr, 0)) else None,
                 Some(PesFields(m.sid, if |m.payload| > 0xFFFF then 0 else |m.payload|, m.dts, m.pts)))
  }

  function NextFields(pid: int, cc: byte): PacketFields { PacketFields(false, pid, CONTROL_PAYLOAD, cc, None, None) }

  /** The fields after the stuffing decision, and the payload bytes that then fit. */
  function Filled(fields: PacketFields, rest: nat): PacketFields
    requires fields.Size() + 2 < PACKET_SIZE
  {
    var stuffings := PACKET_SIZE - fields.Size() - Min(rest, PACKET_SIZE - fields.Size());
    if stuffings > 0 then fields.Padded(stuffings) else fields
  }

  /** Filling a packet follows the plan. */
  lemma FilledFollowsPlan(fields: PacketFields, rest: nat)
    requires 4 <= fields.Size() && fields.Size() + 2 < PACKET_SIZE && rest > 0 && fields.Reserved() == 0
    ensures var plan := PlanPacket(fields.Size(), fields.af.Some?, rest);
            var f := Filled(fields, rest);
            f.Size() + plan.left == PACKET_SIZE && f.AfLength() <= 183 && f.Reserved() == plan.reserved
            && f.af.Some? == plan.hasAf && Min(rest, PACKET_SIZE - f.Size()) == plan.left
            && 0 < plan.left <= rest
  {
    PlanFillsPacket(fields.Size(), fields.af.Some?, rest);
  }

  lemma FilledFirst(pid: int, cc: byte, m: Message, pcr: Option<int>)
    requires m.payload != []
    ensures FirstFields(pid, cc, m, pcr).Size() == FirstBase(m, pcr) && FirstFields(pid, cc, m, pcr).Reserved() == 0
    ensures var f := Filled(FirstFields(pid, cc, m, pcr), |m.payload|);
            var left := FirstPlan(m, pcr).left;
            f.AfLength() <= 183 && left <= |m.payload| && f.control == Control(f.af.Some?)
            && f.pes == FirstFields(pid, cc, m, pcr).pes
            && FirstPacket(pid, cc, m, pcr) == f.Bytes(|m.payload|) + m.payload[..left]
  {
    hide PesHeader, AfBytes, Header;
    FilledFollowsPlan(FirstFields(pid, cc, m, pcr), |m.payload|);
  }

  lemma FilledNext(pid: int, cc: byte, rest: seq<byte>)
    requires rest != []
    ensures var f := Filled(NextFields(pid, cc), |rest|);
            var left := NextPlan(|rest|).left;
            f.AfLength() <= 183 && left <= |rest| && f.control == Control(f.af.Some?)
            && f.pes.None?
            && NextPacket(pid, cc, rest) == f.Bytes(1) + rest[..left]
  {
    hide AfBytes, Header;
    FilledFollowsPlan(NextFields(pid, cc), |rest|);
  }

  /** The sizing part of the loop of encode_pes. */
  method SizeAndPad(pkt: TsPacket, rest: nat) returns (nbBuf: nat, left: nat)
    requires pkt.Valid() && rest > 0 && pkt.Fields().Reserved() == 0
    requires pkt.Fields().control == Control(pkt.Fields().af.Some?)
    requires pkt.Fields().Size() + 2 < PACKET_SIZE
    modifies pkt, pkt.Parts()
    ensures pkt.Valid() && pkt.Sized() && pkt.Fields() == Filled(old(pkt.Fields()), rest)
    ensures pkt.Fields().AfLength() <= 183 && nbBuf == pkt.Fields().Size() && nbBuf + left == PACKET_SIZE
    ensures left == PlanPacket(old(pkt.Fields()).Size(), old(pkt.Fields()).af.Some?, rest).left <= rest
  {
    ghost var fields := pkt.Fields();
    FilledFollowsPlan(fields, rest);
    nbBuf := pkt.Size();
    left := Min(rest, PACKET_SIZE - nbBuf);
    var stuffings := PACKET_SIZE - nbBuf - left;
    if stuffings > 0 {
      pkt.Padding(stuffings);
      nbBuf := pkt.Size();
      left := Min(rest, PACKET_SIZE - nbBuf);
      stuffings := PACKET_SIZE - nbBuf - left;
      assert stuffings == 0;
    }
  }

  /** The writing part: the chunk first, then the headers in front of it. */
  method WritePacket(pkt: TsPacket, nbBuf: nat, chunk: seq<byte>, ghost size: nat) returns (buf: array<byte>)
    requires pkt.Valid() && pkt.Sized() && pkt.Fields().AfLength() <= 183 && nbBuf == pkt.Fields().Size()
    requires nbBuf + |chunk| == PACKET_SIZE
    requires pkt.Fields().pes.Some? ==>
               size > 0 && pkt.Fields().pes.value.packetLength == (if size > 0xFFFF then 0 else size)
    ensures fresh(buf) && buf[..] == pkt.Fields().Bytes(size) + chunk
  {
    hide Overwrite, PacketFields.Bytes;
    ghost var f := pkt.Fields();
    buf := ChunkBuffer(nbBuf, chunk);
    StuffingInside(buf[..], nbBuf, 4 + f.AfLength() - f.Reserved(), f.Reserved());
    var stream := new SrsStream();
    var ok := stream.Initialize(buf, nbBuf);
    ghost var before := buf[..];
    var status := pkt.Encode(stream, size);
    assert before[nbBuf..] == chunk;
    OverwriteFront(before, f.Bytes(size), chunk);
  }

  /** A packet buffer with the chunk at its end and 0xFF before it. */
  method ChunkBuffer(nbBuf: nat, chunk: seq<byte>) returns (buf: array<byte>)
    requires nbBuf + |chunk| == PACKET_SIZE
    ensures fresh(buf) && buf[..] == Stuffing(nbBuf) + chunk
  {
    buf := new byte[PACKET_SIZE](i => 0xFF);
    forall i | 0 <= i < |chunk| {
      buf[nbBuf + i] := chunk[i];
    }
  }

  lemma StuffingInside(b: seq<byte>, nbBuf: nat, from: nat, n: nat)
    requires from + n <= nbBuf <= |b| && b[..nbBuf] == Stuffing(nbBuf)
    ensures b[from..from + n] == Stuffing(n)
  {
    assert forall i :: from <= i < from + n ==> b[i] == b[..nbBuf][i] == 0xFF;
  }

  lemma OverwriteFront(b: seq<byte>, s: seq<byte>, tail: seq<byte>)
    requires |s| <= |b| && b[|s|..] == tail
    ensures Overwrite(b, 0, s) == s + tail
  {
  }

  /** The first turn of the loop. */
  method EmitFirst(pid: int, cc: byte, m: Message, pureAudio: bool) returns (buf: array<byte>, left: nat)
    requires m.payload != [] && !IsRawStreamId(m.sid) && m.sid != PADDING_STREAM_ID && 0 <= pid < 0x2000
    ensures fresh(buf) && left == FirstPlan(m, PcrOf(m, pureAudio)).left
    ensures 0 < left <= |m.payload| && buf[..] == FirstPacket(pid, cc, m, PcrOf(m, pureAudio))
  {
    hide FirstPacket, PacketFields.Bytes, Filled, PlanPacket;
    ghost var pcr0 := PcrOf(m, pureAudio);
    var writePcr := m.writePcr;
    if pureAudio && m.IsAudio() {
      writePcr := true;
    }
    var pcr := if writePcr then m.dts else -1;
    var pkt := new TsPacket.First(pid, m.sid, cc, m.isDiscontinuity, pcr, m.dts, m.pts, |m.payload|);
    FilledFirst(pid, cc, m, pcr0);
    assert pkt.Fields() == FirstFields(pid, cc, m, pcr0);
    FilledFollowsPlan(pkt.Fields(), |m.payload|);
    var nbBuf: nat;
    nbBuf, left := SizeAndPad(pkt, |m.payload|);
    buf := WritePacket(pkt, nbBuf, m.payload[..left], |m.payload|);
  }

  /** A later turn of the loop. */
  method EmitNext(pid: int, cc: byte, rest: seq<byte>) returns (buf: array<byte>, left: nat)
    requires rest != [] && 0 <= pid < 0x2000
    ensures fresh(buf) && left == NextPlan(|rest|).left
    ensures 0 < left <= |rest| && buf[..] == NextPacket(pid, cc, rest)
  {
    hide NextPacket, PacketFields.Bytes, Filled, PlanPacket;
    var pkt := new TsPacket.Continue(pid, cc);
    FilledNext(pid, cc, rest);
    assert pkt.Fields() == NextFields(pid, cc);
    FilledFollowsPlan(pkt.Fields(), |rest|);
    var nbBuf: nat;
    nbBuf, left := SizeAndPad(pkt, |rest|);
    buf := WritePacket(pkt, nbBuf, rest[..left], 1);
  }

  /** SrsTsPayloadPSI::encode and the write of its packet: the CRC is computed over the section in the buffer. */
  method WritePsi(writer: FileWriter, pid: int, section: seq<byte>)
    requires 0 < |section| <= 100 && 0 <= pid < 0x2000
    modifies writer
    ensures writer.written == old(writer.written) + [PsiPacket(pid, section)]
  {
    hide Overwrite, Header, Stuffing, Crc32.Crc, Crc32.WireBytes, Crc32.Serial;
    var nbBuf := 9 + |section|;
    var buf := ChunkBuffer(PACKET_SIZE, []);
    var stream := new SrsStream();
    var ok := stream.Initialize(buf, nbBuf);
    ghost var blank := buf[..];
    assert blank == Stuffing(PACKET_SIZE);
    var head := Header(true, pid, CONTROL_PAYLOAD, 0) + [0];
    stream.Write(head);
    stream.Write(section);
    OverwriteTwice(blank, 0, head, section);
    OverwrittenPart(blank, head, section);
    var crc := Crc32.MpegtsCrc32(buf, 5, |section|);
    var field := Crc32.WireBytes(crc);
    stream.Write(field);
    OverwriteTwice(blank, 0, head + section, field);
    Crc32.CrcOnTheWire(section);
    StuffedTail(blank, head + section + field);
    writer.Write(buf);
  }

  lemma OverwrittenPart(b: seq<byte>, head: seq<byte>, s: seq<byte>)
    requires |head| + |s| <= |b|
    ensures Overwrite(b, 0, head + s)[|head|..|head| + |s|] == s
  {
  }

  lemma StuffedTail(b: seq<byte>, s: seq<byte>)
    requires b == Stuffing(PACKET_SIZE) && |s| <= PACKET_SIZE
    ensures Overwrite(b, 0, s) == s + Stuffing(PACKET_SIZE - |s|)
  {
    assert b[|s|..] == Stuffing(PACKET_SIZE - |s|);
  }

  /** DecodePmt by its errors. */
  lemma PmtCases(d: seq<byte>, pos: int, length: int, pid: int, pids: Pids)
    requires 0 <= pos
    ensures !Has(d, pos, 9) ==> DecodePmt(d, pos, length, pid, pids) == PsiResult(PmtError, pids, pos)
    ensures Has(d, pos, 9) ==>
              var n := Be16(d[pos + 7], d[pos + 8]) % 0x1000;
              var p := pos + 9 + n;
              DecodePmt(d, pos, length, pid, pids)
              == if n > 0 && !Has(d, pos + 9, n) then PsiResult(PmtError, pids, pos + 9)
                 else
                   var r := DecodeInfos(d, p, p + length - 4 - 9 - n, pids);
                   if r.status != Success then r
                   else r.(pids := SetPid(r.pids, pid, TsWire.ApplyPMT, STREAM_RESERVED))
  {
    hide SetPid, DecodeInfos, Be16;
  }

  class TsContext {
    var pids: Pids
    var vcodec: VideoCodec
    var acodec: AudioCodec

    constructor ()
      ensures State() == NEW_MUX
    {
      pids, vcodec, acodec := map[], VideoReserved, AudioReserved1;
    }

    ghost function State(): Mux
      reads this
    {
      Mux(pids, vcodec, acodec)
    }

    /** Forget the codecs, so that the next message is preceded by PAT and PMT. */
    method ResetCodecs()
      modifies this
      ensures State() == Step(old(State()), Reset).mux
    {
      vcodec, acodec := VideoReserved, AudioReserved1;
    }

    method Set(pid: int, apply: Apply, stream: byte)
      modifies this`pids
      ensures pids == SetPid(old(pids), pid, apply, stream)
    {
      if pid !in pids {
        pids := pids[pid := Channel(ApplyReserved, STREAM_RESERVED, None, 0)];
      }
      pids := pids[pid := pids[pid].(apply := apply, stream := stream)];
    }

    /** The loop of encode_pes. */
    method EmitMessage(writer: FileWriter, m: Message, pid: int, pureAudio: bool)
      requires m.payload != [] && pid in pids
      requires !IsRawStreamId(m.sid) && m.sid != PADDING_STREAM_ID && 0 <= pid < 0x2000
      modifies this`pids, writer
      ensures var packets := MessagePackets(pid, old(pids[pid].cc), m, PcrOf(m, pureAudio));
              State() == WithCounter(old(State()), pid, AdvanceCc(old(pids[pid].cc), |packets|))
              && writer.written == old(writer.written) + packets
    {
      hide FirstPacket, NextPacket, FirstPlan, NextPlan, AdvanceCc, NextPackets, MessagePackets, NextCc, PcrOf;
      ghost var start, cc0, before := State(), pids[pid].cc, writer.written;
      ghost var packets := MessagePackets(pid, cc0, m, PcrOf(m, pureAudio));
      var cc := pids[pid].cc;
      var buf, left := EmitFirst(pid, cc, m, pureAudio);
      pids := pids[pid := pids[pid].(cc := NextCc(cc))];
      writer.Write(buf);
      MessageUnfolds(pid, cc, m, PcrOf(m, pureAudio));
      AdvanceCcZero(cc0);
      AdvanceCcNext(cc0, 0);
      ghost var sent := [buf[..]];
      var p := left;
      while p < |m.payload|
        invariant 0 <= p <= |m.payload|
        invariant pid in pids && State() == WithCounter(start, pid, AdvanceCc(cc0, |sent|))
        invariant writer.written == before + sent
        invariant packets == sent + NextPackets(pid, AdvanceCc(cc0, |sent|), m.payload[p..])
      {
        cc := pids[pid].cc;
        NextUnfolds(pid, cc, sent, m.payload, p);
        AdvanceCcNext(cc0, |sent|);
        buf, left := EmitNext(pid, cc, m.payload[p..]);
        pids := pids[pid := pids[pid].(cc := NextCc(cc))];
        writer.Write(buf);
        sent := sent + [buf[..]];
        p := p + left;
      }
      NoMorePackets(pid, AdvanceCc(cc0, |sent|), m.payload);
      assert sent + [] == sent;
    }

    method EncodePes(writer: FileWriter, m: Message, pid: int, stream: byte, pureAudio: bool)
      returns (status: MuxStatus)
      requires !IsRawStreamId(m.sid) && m.sid != PADDING_STREAM_ID && 0 <= pid < 0x2000
      modifies this`pids, writer
      ensures var r := TsRun.EncodePes(old(State()), m, pid, stream, pureAudio);
              status == r.status && State() == r.mux && writer.written == old(writer.written) + r.packets
    {
      hide MessagePackets, AdvanceCc, PcrOf;
      if |m.payload| == 0 {
        return Muxed;
      }
      if stream != STREAM_H264 && stream != STREAM_MP3 && stream != STREAM_AAC {
        return Muxed;
      }
      if pid !in pids {
        return MissingChannel;
      }
      EmitMessage(writer, m, pid, pureAudio);
      return Muxed;
    }

    /** The table updates of the PMT's psi_encode. */
    method SetInfos(infos: seq<EsInfo>)
      modifies this`pids
      ensures pids == ApplyInfos(old(pids), infos)
    {
      hide SetPid;
      for i := 0 to |infos|
        invariant ApplyInfos(old(pids), infos) == ApplyInfos(pids, infos[i..])
      {
        var info := infos[i];
        assert infos[i..][0] == info && infos[i..][1..] == infos[i + 1..];
        match StreamApply(info.stream) {
          case ApplyReserved =>
          case apply => Set(info.pid, apply, info.stream);
        }
      }
    }

    /** PAT then PMT for the current codecs; psi_encode enters their PIDs in the table. */
    method EncodePatPmt(writer: FileWriter) returns (status: MuxStatus)
      modifies this`pids, writer
      ensures var r := TsRun.EncodePatPmt(old(State()));
              status == r.status && State() == r.mux && writer.written == old(writer.written) + r.packets
    {
      hide PsiPacket, SetPid, PatSection, PmtSection, ApplyInfos;
      var vs, as_ := VideoStream(vcodec), AudioStream(acodec);
      if vs != STREAM_H264 && as_ != STREAM_AAC && as_ != STREAM_MP3 {
        return NoStream;
      }
      WritePsi(writer, PAT_PID, PatSection());
      Set(PMT_PID, TsWire.ApplyPMT, STREAM_RESERVED);
      Set(PAT_PID, TsWire.ApplyPAT, STREAM_RESERVED);
      var infos := Infos(vcodec, acodec);
      WritePsi(writer, PMT_PID, PmtSection(infos, PcrPid(vcodec, acodec)));
      SetInfos(infos);
      Set(PMT_PID, TsWire.ApplyPMT, STREAM_RESERVED);
      status := Muxed;
    }

    /** SrsTsContext::encode. */
    method Encode(writer: FileWriter, m: Message, vc: VideoCodec, ac: AudioCodec) returns (status: MuxStatus)
      requires !IsRawStreamId(m.sid) && m.sid != PADDING_STREAM_ID
      modifies this, writer
      ensures var r := TsRun.Encode(old(State()), m, vc, ac);
              status == r.status && State() == r.mux && writer.written == old(writer.written) + r.packets
    {
      hide TsRun.EncodePatPmt, TsRun.EncodePes, TsRun.Encode;
      EncodeMeaning(State(), m, vc, ac);
      var vs, videoPid := VideoStream(vc), VideoPid(vc);
      var as_, audioPid := AudioStream(ac), AudioPid(ac);
      if as_ == STREAM_RESERVED && vs == STREAM_RESERVED {
        return NoStream;
      }
      ghost var before := writer.written;
      ghost var psi := PsiPart(State(), vc, ac);
      if vcodec != vc || acodec != ac {
        vcodec := vc;
        acodec := ac;
        // there is a stream, so this is not refused
        status := EncodePatPmt(writer);
        assert status == Muxed;
      }
      assert State() == psi.mux && writer.written == before + psi.packets;
      ghost var pid, stream := TargetPid(m, vc, ac), TargetStream(m, vc, ac);
      ghost var pes := TsRun.EncodePes(psi.mux, m, pid, stream, vs == STREAM_RESERVED);
      assert before + psi.packets + pes.packets == before + (psi.packets + pes.packets);
      if m.IsAudio() {
        status := EncodePes(writer, m, audioPid, as_, vs == STREAM_RESERVED);
      } else {
        status := EncodePes(writer, m, videoPid, vs, vs == STREAM_RESERVED);
      }
    }

    // ---------- demuxing ----------

    /** SrsTsPayloadPAT::psi_decode: every program enters the table as a PMT. */
    method ReadPat(stream: SrsStream, length: int, pid: int) returns (status: Status)
      requires stream.Valid()
      modifies this`pids, stream`p
      ensures stream.Valid() && stream.Data() == old(stream.Data())
      ensures PsiResult(status, pids, stream.p) == DecodePat(stream.Data(), old(stream.p), length, pid, old(pids))
    {
      hide SetPid;
      if !stream.Require(5) {
        return PatError;
      }
      var start := stream.p;
      ghost var d := stream.Data();
      var id := stream.Read2();
      var cniv := stream.Read1();
      var section := stream.Read1();
      var last := stream.Read1();
      var programBytes := length - 4 - (stream.p - start);
      ghost var whole := DecodePrograms(d, stream.p, programBytes, pids);
      var i := 0;
      while i < programBytes
        invariant stream.Valid() && stream.Data() == d
        invariant whole == DecodePrograms(d, stream.p, programBytes - i, pids)
        decreases programBytes - i
      {
        if !stream.Require(4) {
          return PatError;
        }
        var number := stream.Read2();
        var value := stream.Read2();
        Set(value % 0x2000, TsWire.ApplyPMT, STREAM_RESERVED);
        i := i + 4;
      }
      Set(pid, TsWire.ApplyPAT, STREAM_RESERVED);
      return Success;
    }

    /** SrsTsPayloadPMT::psi_decode: every known elementary stream enters the table. */
    method ReadPmt(stream: SrsStream, length: int, pid: int) returns (status: Status)
      requires stream.Valid()
      modifies this`pids, stream`p
      ensures stream.Valid() && stream.Data() == old(stream.Data())
      ensures PsiResult(status, pids, stream.p) == DecodePmt(stream.Data(), old(stream.p), length, pid, old(pids))
    {
      ghost var d := stream.Data();
      PmtCases(d, stream.p, length, pid, pids);
      hide SetPid, DecodeInfos, DecodePmt;
      if !stream.Require(9) {
        return PmtError;
      }
      stream.Skip(7);
      var pilv := stream.Read2();
      var infoLength := pilv % 0x1000;
      if infoLength > 0 {
        if !stream.Require(infoLength) {
          return PmtError;
        }
        stream.Skip(infoLength);
      }
      status := ReadInfos(stream, stream.p + length - 4 - 9 - infoLength);
      if status == Success {
        Set(pid, TsWire.ApplyPMT, STREAM_RESERVED);
      }
    }

    method ReadInfos(stream: SrsStream, end: int) returns (status: Status)
      requires stream.Valid()
      modifies this`pids, stream`p
      ensures stream.Valid() && stream.Data() == old(stream.Data())
      ensures PsiResult(status, pids, stream.p) == DecodeInfos(stream.Data(), old(stream.p), end, old(pids))
    {
      hide SetPid;
      ghost var d := stream.Data();
      ghost var whole := DecodeInfos(d, stream.p, end, pids);
      while stream.p < end
        invariant stream.Valid() && stream.Data() == d
        invariant whole == DecodeInfos(d, stream.p, end, pids)
        decreases end - stream.p
      {
        if !stream.Require(5) {
          return PmtError;
        }
        var streamType := stream.Read1();
        var epv := stream.Read2();
        var eilv := stream.Read2();
        var infoLength := eilv % 0x1000;
        if infoLength > 0 {
          if !stream.Require(infoLength) {
            return PmtError;
          }
          stream.Skip(infoLength);
        }
        match StreamApply(streamType) {
          case ApplyReserved =>
          case apply => Set(epv % 0x2000, apply, streamType);
        }
      }
      return Success;
    }

    /** The section behind its length, up to the CRC. */
    method ReadSection(stream: SrsStream, start: int, length: int, isPat: bool, pid: int) returns (status: Status)
      requires stream.Valid() && 0 <= start <= stream.p && length > 0 && Has(stream.Data(), stream.p, length)
      modifies this`pids, stream`p
      ensures stream.Valid() && stream.Data() == old(stream.Data())
      ensures var d := stream.Data();
              var r := if isPat then DecodePat(d, old(stream.p), length, pid, old(pids))
                       else DecodePmt(d, old(stream.p), length, pid, old(pids));
              PsiResult(status, pids, stream.p)
              == if r.status != Success then r
                 else if !Has(d, r.pos, 4) then r.(status := PsiError)
                 else if Be32(d[r.pos], d[r.pos + 1], d[r.pos + 2], d[r.pos + 3]) != Crc32.Crc(d[start..r.pos]) then
                   r.(status := CrcError, pos := r.pos + 4)
                 else PsiResult(Success, r.pids, |d|)
    {
      hide DecodePat, DecodePmt, Crc32.Crc, Crc32.Serial, Be32;
      if isPat {
        status := ReadPat(stream, length, pid);
      } else {
        status := ReadPmt(stream, length, pid);
      }
      if status != Success {
        return;
      }
      status := CheckCrc(stream, start);
    }

    /** SrsTsPayloadPSI::decode. */
    method ReadPsi(stream: SrsStream, unitStart: bool, isPat: bool, pid: int) returns (status: Status)
      requires stream.Valid()
      modifies this`pids, stream`p
      ensures stream.Valid() && stream.Data() == old(stream.Data())
      ensures PsiResult(status, pids, stream.p)
           == DecodePsi(stream.Data(), old(stream.p), unitStart, isPat, pid, old(pids))
    {
      hide DecodeTable;
      if unitStart {
        if !stream.Require(1) {
          return PsiError;
        }
        var pointerField := stream.Read1();
      }
      status := ReadTable(stream, isPat, pid);
    }

    method ReadTable(stream: SrsStream, isPat: bool, pid: int) returns (status: Status)
      requires stream.Valid()
      modifies this`pids, stream`p
      ensures stream.Valid() && stream.Data() == old(stream.Data())
      ensures PsiResult(status, pids, stream.p) == DecodeTable(stream.Data(), old(stream.p), isPat, pid, old(pids))
    {
      hide DecodePat, DecodePmt, Crc32.Crc, Crc32.Serial, Be32;
      var start := stream.p;
      if !stream.Require(3) {
        return PsiError;
      }
      var tableId := stream.Read1();
      var slv := stream.Read2();
      var length := slv % 0x1000;
      if length == 0 {
        return Success;
      }
      if !stream.Require(length) {
        return PsiError;
      }
      status := ReadSection(stream, start, length, isPat, pid);
    }

    /** The CRC of the section read since `start`, then the rest of the packet is stuffing. */
    method CheckCrc(stream: SrsStream, start: nat) returns (status: Status)
      requires stream.Valid() && start <= stream.p
      modifies stream`p
      ensures stream.Valid() && stream.Data() == old(stream.Data())
      ensures var d, end := stream.Data(), old(stream.p);
              PsiResult(status, pids, stream.p)
              == if !Has(d, end, 4) then PsiResult(PsiError, pids, end)
                 else if Be32(d[end], d[end + 1], d[end + 2], d[end + 3]) != Crc32.Crc(d[start..end]) then
                   PsiResult(CrcError, pids, end + 4)
                 else PsiResult(Success, pids, |d|)
    {
      hide Crc32.Serial, Be32;
      if !stream.Require(4) {
        return PsiError;
      }
      var end := stream.p;
      var field := stream.Read4();
      var crc := Crc32.MpegtsCrc32(stream.bytes, start, end - start);
      assert stream.bytes[start..start + (end - start)] == stream.Data()[start..end];
      if Unsigned(Crc32.WireBytes(crc)) != field {
        return CrcError;
      }
      if !stream.Empty() {
        stream.Skip(stream.nbBytes - stream.p);
      }
      return Success;
    }

    /** The payload part of SrsTsPacket::decode. */
    method ReadPayload(stream: SrsStream, unitStart: bool, pid: int, cc: byte, end: int)
      returns (status: Status, out: Option<Delivered>)
      requires stream.Valid() && 0 < stream.p && 0 < stream.nbBytes && cc < 16 && 0 <= end
      modifies this`pids, stream`p
      ensures stream.Valid() && stream.Data() == old(stream.Data()) && stream.bytes == old(stream.bytes)
      ensures var r := DecodePayload(old(pids), stream.Data(), old(stream.p), unitStart, pid, cc, end);
              status == r.status && pids == r.pids && out == r.out && (status == Success ==> stream.p == r.pos)
    {
      hide DecodePsi, DecodePes;
      out := None;
      if pid == PAT_PID {
        status := ReadPsi(stream, unitStart, true, pid);
      } else if pid in pids && pids[pid].apply == TsWire.ApplyPMT {
        status := ReadPsi(stream, unitStart, false, pid);
      } else if pid in pids && (pids[pid].apply == ApplyVideo || pids[pid].apply == ApplyAudio) {
        var msg: Option<Message>, reaped: Option<Message>;
        status, msg, reaped := ReadPes(stream, unitStart, cc, pids[pid].msg);
        pids := pids[pid := pids[pid].(msg := msg)];
        if reaped.Some? {
          out := Some(Delivered(pid, reaped.value));
        }
      } else {
        stream.Skip(end - stream.p);
        status := Success;
      }
    }

    /** SrsTsPacket::decode. */
    method ReadPacket(stream: SrsStream) returns (status: Status, out: Option<Delivered>)
      requires stream.Valid() && stream.p < stream.nbBytes
      modifies this`pids, stream`p
      ensures stream.Valid() && stream.Data() == old(stream.Data()) && stream.bytes == old(stream.bytes)
      ensures var r := DecodePacket(old(pids), stream.Data(), old(stream.p));
              status == r.status && pids == r.pids && (status == Success ==> out == r.out && stream.p == r.pos)
    {
      hide DecodePayload, DecodeAf, SetMsg, Be16, Flag;
      var start := stream.p;
      if !stream.Require(4) {
        return HeaderError, None;
      }
      HeaderWord(stream.Data()[start + 1], stream.Data()[start + 2]);
      var sync := stream.Read1();
      if sync != 0x47 {
        return SyncByteError, None;
      }
      var pidv := stream.Read2();
      var ccv := stream.Read1();
      var unitStart := pidv / 0x4000 % 2 == 1;
      var pid := pidv % 0x2000;
      status, out := ReadBody(stream, start, unitStart, pid, ccv);
    }

    /** The unit start bit, in the two bytes as one word. */
    lemma HeaderWord(a: byte, b: byte)
      ensures (Be16(a, b) / 0x4000 % 2 == 1) == Flag(a, 64)
    {
      assert Be16(a, b) / 0x4000 == a as int / 64;
    }

    /** The packet behind its header of four bytes, of which `ccv` is the last. */
    method ReadBody(stream: SrsStream, start: nat, unitStart: bool, pid: int, ccv: byte)
      returns (status: Status, out: Option<Delivered>)
      requires stream.Valid() && stream.p == start + 4 <= stream.nbBytes
      modifies this`pids, stream`p
      ensures stream.Valid() && stream.Data() == old(stream.Data()) && stream.bytes == old(stream.bytes)
      ensures var d, control := stream.Data(), ccv / 16 % 4;
              var af := if control == CONTROL_ADAPTION || control == CONTROL_BOTH then DecodeAf(d, start + 4, control)
                        else AfOk(start + 4, None);
              var r := if af.AfFailed? then PacketResult(AdaptationFieldError, old(pids), start + 4, None)
                       else if control == CONTROL_PAYLOAD || control == CONTROL_BOTH then
                         DecodePayload(old(pids), d, af.pos, unitStart, pid, ccv % 16, start + PACKET_SIZE)
                       else PacketResult(Success, old(pids), af.pos, None);
              status == r.status && pids == r.pids && (status == Success ==> out == r.out && stream.p == r.pos)
    {
      hide DecodePayload, DecodeAf, SetMsg;
      var control := ccv / 16 % 4;
      if control == CONTROL_ADAPTION || control == CONTROL_BOTH {
        var ok, pcr := ReadAf(stream, control);
        if !ok {
          return AdaptationFieldError, None;
        }
      }
      if control == CONTROL_PAYLOAD || control == CONTROL_BOTH {
        status, out := ReadPayload(stream, unitStart, pid, ccv % 16, start + PACKET_SIZE);
        return;
      }
      return Success, None;
    }

    /** SrsTsContext::decode: until the end of the stream, and it always ends. */
    method Decode(stream: SrsStream) returns (status: Status, out: seq<Delivered>)
      requires stream.Valid()
      modifies this`pids, stream`p
      ensures AllResult(status, pids, out) == DecodeAll(old(pids), old(stream.Data()), old(stream.p))
    {
      hide DecodePacket, Live, DecodeAll;
      ghost var d := stream.Data();
      ghost var whole := DecodeAll(pids, d, stream.p);
      out := [];
      while !stream.Empty()
        invariant stream.Valid() && stream.Data() == d
        invariant var rest := DecodeAll(pids, d, stream.p); whole == rest.(out := out + rest.out)
        decreases stream.p < stream.nbBytes, Live(pids), stream.nbBytes - stream.p
      {
        PacketProgress(pids, d, stream.p);
        DecodeAllUnfolds(pids, d, stream.p, out);
        ghost var live := Live(pids);
        var msg: Option<Delivered>;
        status, msg := ReadPacket(stream);
        if status != Success {
          assert out + [] == out;
          return;
        }
        assert stream.p < |d| ==> Live(pids) < live || Live(pids) == live;
        if msg.Some? {
          out := out + [msg.value];
        }
      }
      DecodeAllAtEnd(pids, d, stream.p);
      assert out + [] == out;
      return Success, out;
    }
  }

  lemma DecodeAllUnfolds(pids: Pids, d: seq<byte>, pos: int, out: seq<Delivered>)
    requires 0 <= pos < |d|
    ensures var r := DecodePacket(pids, d, pos);
            var all := DecodeAll(pids, d, pos);
            if r.status != Success then all == AllResult(r.status, r.pids, [])
            else
              0 <= r.pos ==>
                var rest := DecodeAll(r.pids, d, r.pos);
                all.(out := out + all.out) == rest.(out := out + (if r.out.Some? then [r.out.value] else []) + rest.out)
  {
    hide DecodePacket;
    PacketProgress(pids, d, pos);
  }

  lemma DecodeAllAtEnd(pids: Pids, d: seq<byte>, pos: int)
    requires 0 <= pos && |d| <= pos
    ensures DecodeAll(pids, d, pos) == AllResult(Success, pids, [])
  {
  }

  ghost function PsiPart(mux: Mux, vc: VideoCodec, ac: AudioCodec): MuxResult {
    if mux.vcodec != vc || mux.acodec != ac then TsRun.EncodePatPmt(mux.(vcodec := vc, acodec := ac))
    else MuxResult(Muxed, mux, [])
  }

  lemma EncodeMeaning(mux: Mux, m: Message, vc: VideoCodec, ac: AudioCodec)
    ensures NoCodec(vc, ac) ==> TsRun.Encode(mux, m, vc, ac) == MuxResult(NoStream, mux, [])
    ensures !NoCodec(vc, ac) ==>
              var psi := PsiPart(mux, vc, ac);
              var pes := TsRun.EncodePes(psi.mux, m, TargetPid(m, vc, ac), TargetStream(m, vc, ac),
                                         VideoStream(vc) == STREAM_RESERVED);
              psi.status == Muxed
              && TsRun.Encode(mux, m, vc, ac) == pes.(packets := psi.packets + pes.packets)
  {
    hide TsRun.EncodePes, PsiPacket, PatSection, PmtSection, ApplyPmt, ApplyPat;
  }

  ghost function WithCounter(mux: Mux, pid: int, cc: byte): Mux
    requires pid in mux.pids
  {
    mux.(pids := mux.pids[pid := mux.pids[pid].(cc := cc)])
  }

  lemma MessageUnfolds(pid: int, cc: byte, m: Message, pcr: Option<int>)
    requires m.payload != [] && FirstPlan(m, pcr).left <= |m.payload|
    ensures MessagePackets(pid, cc, m, pcr)
         == [FirstPacket(pid, cc, m, pcr)] + NextPackets(pid, NextCc(cc), m.payload[FirstPlan(m, pcr).left..])
  {
    hide FirstPacket, NextPackets;
  }

  lemma NextUnfolds(pid: int, cc: byte, sent: seq<seq<byte>>, payload: seq<byte>, p: nat)
    requires p < |payload|
    ensures var rest := payload[p..];
            var left := NextPlan(|rest|).left;
            left <= |rest|
            && sent + NextPackets(pid, cc, rest)
               == sent + [NextPacket(pid, cc, rest)] + NextPackets(pid, NextCc(cc), payload[p + left..])
  {
    hide NextPacket;
    var rest := payload[p..];
    PlanFillsPacket(4, false, |rest|);
    var left := NextPlan(|rest|).left;
    assert rest[left..] == payload[p + left..];
    var tail := NextPackets(pid, NextCc(cc), rest[left..]);
    assert sent + ([NextPacket(pid, cc, rest)] + tail) == sent + [NextPacket(pid, cc, rest)] + tail;
  }

  lemma NoMorePackets(pid: int, cc: byte, payload: seq<byte>)
    ensures NextPackets(pid, cc, payload[|payload|..]) == []
  {
  }

  lemma AdvanceCcZero(cc: byte)
    ensures AdvanceCc(cc, 0) == cc
  {
  }

  lemma AdvanceCcNext(cc: byte, n: nat)
    ensures NextCc(AdvanceCc(cc, n)) == AdvanceCc(cc, n + 1)
  {
  }
}
