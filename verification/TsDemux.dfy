/**
 SrsTsPacket::decode and the loop of SrsTsContext::decode as functions, with the proof that the loop ends on every
 input although a packet may rewind the stream to its start.
 */
module TsDemux {
  import opened Bytes
  import opened TsWire
  import opened TsParse
  import opened TsPsi
  import Crc32

  /** A message handed to the handler. */
  datatype Delivered = Delivered(pid: int, msg: Message)

  datatype PacketResult = PacketResult(status: Status, pids: Pids, pos: int, out: Option<Delivered>)

  /** The payload part of SrsTsPacket::decode. */
  function DecodePayload(pids: Pids, d: seq<byte>, pos: int, unitStart: bool, pid: int, cc: byte, end: int)
    : (r: PacketResult)
    requires 0 < pos && 0 < |d|
  {
    if pid == PAT_PID then
      var r := DecodePsi(d, pos, unitStart, true, pid, pids);
      PacketResult(r.status, r.pids, r.pos, None)
    else if pid in pids && pids[pid].apply == TsWire.ApplyPMT then
      var r := DecodePsi(d, pos, unitStart, false, pid, pids);
      PacketResult(r.status, r.pids, r.pos, None)
    else if pid in pids && (pids[pid].apply == ApplyVideo || pids[pid].apply == ApplyAudio) then
      var r := DecodePes(d, pos, unitStart, cc, pids[pid].msg);
      PacketResult(r.status, SetMsg(pids, pid, r.msg), r.pos,
                   if r.out.Some? then Some(Delivered(pid, r.out.value)) else None)
    else PacketResult(Success, pids, end, None)
  }

  /** SrsTsPacket::decode from position `pos`. */
  function DecodePacket(pids: Pids, d: seq<byte>, pos: int): (r: PacketResult)
    requires 0 <= pos
  {
    if !Has(d, pos, 4) then PacketResult(HeaderError, pids, pos, None)
    else if d[pos] != 0x47 then PacketResult(SyncByteError, pids, pos + 1, None)
    else
      var pid := Be16(d[pos + 1], d[pos + 2]) % 0x2000;
      var control := d[pos + 3] / 16 % 4;
      var af := if control == CONTROL_ADAPTION || control == CONTROL_BOTH then DecodeAf(d, pos + 4, control)
                else AfOk(pos + 4, None);
      if af.AfFailed? then PacketResult(AdaptationFieldError, pids, pos + 4, None)
      else if control == CONTROL_PAYLOAD || control == CONTROL_BOTH then
        DecodePayload(pids, d, af.pos, Flag(d[pos + 1], 64), pid, d[pos + 3] % 16, pos + PACKET_SIZE)
      else PacketResult(Success, pids, af.pos, None)
  }

  /** The PIDs with a message under reassembly. */
  function Live(pids: Pids): set<int> { set pid | pid in pids && pids[pid].msg.Some? }

  lemma SetPidKeepsLive(pids: Pids, pid: int, apply: Apply, stream: byte)
    ensures Live(SetPid(pids, pid, apply, stream)) == Live(pids)
  {
  }

  lemma {:induction false} ProgramsKeepLive(d: seq<byte>, pos: int, left: int, pids: Pids)
    requires 0 <= pos
    ensures Live(DecodePrograms(d, pos, left, pids).pids) == Live(pids)
    decreases left
  {
    if left > 0 && Has(d, pos, 4) {
      var pid := Be16(d[pos + 2], d[pos + 3]) % 0x2000;
      SetPidKeepsLive(pids, pid, TsWire.ApplyPMT, STREAM_RESERVED);
      ProgramsKeepLive(d, pos + 4, left - 4, SetPid(pids, pid, TsWire.ApplyPMT, STREAM_RESERVED));
    }
  }

  lemma {:induction false} InfosKeepLive(d: seq<byte>, pos: int, end: int, pids: Pids)
    requires 0 <= pos
    ensures Live(DecodeInfos(d, pos, end, pids).pids) == Live(pids)
    decreases end - pos
  {
    if pos < end && Has(d, pos, 5) {
      var info := EsInfo(d[pos], Be16(d[pos + 1], d[pos + 2]) % 0x2000);
      var infoLength := Be16(d[pos + 3], d[pos + 4]) % 0x1000;
      SetPidKeepsLive(pids, info.pid, StreamApply(info.stream), info.stream);
      InfosKeepLive(d, pos + 5 + infoLength, end, ApplyInfo(pids, info));
    }
  }

  lemma PsiKeepsLive(d: seq<byte>, pos: int, unitStart: bool, isPat: bool, pid: int, pids: Pids)
    requires 0 <= pos
    ensures Live(DecodePsi(d, pos, unitStart, isPat, pid, pids).pids) == Live(pids)
  {
    hide DecodePat, DecodePmt, Live, Crc32.Crc;
    var start := if unitStart then pos + 1 else pos;
    if Has(d, start, 3) {
      var length := Be16(d[start + 1], d[start + 2]) % 0x1000;
      if isPat {
        PatKeepsLive(d, start + 3, length, pid, pids);
      } else {
        PmtKeepsLive(d, start + 3, length, pid, pids);
      }
    }
  }

  lemma PatKeepsLive(d: seq<byte>, pos: int, length: int, pid: int, pids: Pids)
    requires 0 <= pos
    ensures Live(DecodePat(d, pos, length, pid, pids).pids) == Live(pids)
  {
    ProgramsKeepLive(d, pos + 5, length - 9, pids);
    SetPidKeepsLive(DecodePrograms(d, pos + 5, length - 9, pids).pids, pid, TsWire.ApplyPAT, STREAM_RESERVED);
  }

  lemma PmtKeepsLive(d: seq<byte>, pos: int, length: int, pid: int, pids: Pids)
    requires 0 <= pos
    ensures Live(DecodePmt(d, pos, length, pid, pids).pids) == Live(pids)
  {
    if Has(d, pos, 9) {
      var infoLength := Be16(d[pos + 7], d[pos + 8]) % 0x1000;
      var p := pos + 9 + infoLength;
      var end := p + length - 4 - 9 - infoLength;
      InfosKeepLive(d, p, end, pids);
      SetPidKeepsLive(DecodeInfos(d, p, end, pids).pids, pid, TsWire.ApplyPMT, STREAM_RESERVED);
    }
  }

  /** Progress: a packet that leaves bytes unread either moves forward or gives up a pending message. */
  lemma PacketProgress(pids: Pids, d: seq<byte>, pos: int)
    requires 0 <= pos < |d|
    ensures var r := DecodePacket(pids, d, pos);
            r.status == Success && r.pos < |d| ==>
              (r.pos == 0 && Live(r.pids) < Live(pids)) || (pos < r.pos && Live(r.pids) <= Live(pids))
  {
    var r := DecodePacket(pids, d, pos);
    if r.status == Success && r.pos < |d| {
      var pid := Be16(d[pos + 1], d[pos + 2]) % 0x2000;
      var control := d[pos + 3] / 16 % 4;
      var af := if control == CONTROL_ADAPTION || control == CONTROL_BOTH then DecodeAf(d, pos + 4, control)
                else AfOk(pos + 4, None);
      assert af.pos > pos;
      if control == CONTROL_PAYLOAD || control == CONTROL_BOTH {
        PayloadProgress(pids, d, af.pos, Flag(d[pos + 1], 64), pid, d[pos + 3] % 16, pos + PACKET_SIZE);
      }
    }
  }

  lemma PayloadProgress(pids: Pids, d: seq<byte>, pos: int, unitStart: bool, pid: int, cc: byte, end: int)
    requires 0 < pos && 0 < |d|
    ensures var r := DecodePayload(pids, d, pos, unitStart, pid, cc, end);
            r.status == Success && r.pos < |d| ==>
              (r.pos == 0 && Live(r.pids) < Live(pids))
              || (r.pos == end && r.pids == pids)
              || (pos < r.pos && Live(r.pids) <= Live(pids))
  {
    PsiKeepsLive(d, pos, unitStart, true, pid, pids);
    PsiKeepsLive(d, pos, unitStart, false, pid, pids);
    if pid in pids {
      var r := DecodePes(d, pos, unitStart, cc, pids[pid].msg);
      if r.status == Success && r.pos < |d| {
        assert r.msg.None?;
        assert Live(SetMsg(pids, pid, None)) == Live(pids) - {pid};
      }
    }
  }

  datatype AllResult = AllResult(status: Status, pids: Pids, out: seq<Delivered>)

  /** SrsTsContext::decode: parse until the end of the stream. It is total. */
  function DecodeAll(pids: Pids, d: seq<byte>, pos: int): (r: AllResult)
    requires 0 <= pos
    decreases Live(pids), |d| - pos
  {
    if pos >= |d| then AllResult(Success, pids, [])
    else
      var r := DecodePacket(pids, d, pos);
      if r.status != Success then AllResult(r.status, r.pids, [])
      else
        var out := if r.out.Some? then [r.out.value] else [];
        PacketProgress(pids, d, pos);
        if r.pos >= |d| then AllResult(Success, r.pids, out)
        else
          var rest := DecodeAll(r.pids, d, r.pos);
          rest.(out := out + rest.out)
  }

  /** Decoding a run of streams of one packet each. */
  function DecodeRun(pids: Pids, packets: seq<seq<byte>>): (r: AllResult)
    decreases |packets|
  {
    if packets == [] then AllResult(Success, pids, [])
    else
      var first := DecodeAll(pids, packets[0], 0);
      if first.status != Success then first
      else
        var rest := DecodeRun(first.pids, packets[1..]);
        rest.(out := first.out + rest.out)
  }

  lemma {:induction false} DecodeRunAppend(pids: Pids, a: seq<seq<byte>>, b: seq<seq<byte>>)
    requires DecodeRun(pids, a).status == Success
    ensures var first := DecodeRun(pids, a);
            var rest := DecodeRun(first.pids, b);
            DecodeRun(pids, a + b) == rest.(out := first.out + rest.out)
    decreases |a|
  {
    hide DecodeAll;
    if a == [] {
      assert a + b == b;
    } else {
      var one := DecodeAll(pids, a[0], 0);
      assert (a + b)[1..] == a[1..] + b;
      DecodeRunAppend(one.pids, a[1..], b);
      var tail := DecodeRun(one.pids, a[1..]);
      var rest := DecodeRun(tail.pids, b);
      assert one.out + (tail.out + rest.out) == (one.out + tail.out) + rest.out;
    }
  }
}
