/**
 Program specific information: the PAT and PMT packets that SrsTsContext::encode_pat_pmt writes, and the section
 decoder of SrsTsPayloadPSI with its CRC check. Both sides update a PID table.
 */
module TsPsi {
  import opened Bytes
  import opened TsWire
  import opened TsParse
  import Crc32

  const PMT_NUMBER: int := 1
  const PMT_PID: int := 0x1001
  const PAT_PID: int := 0

  /** One elementary stream announced by a PMT. */
  datatype EsInfo = EsInfo(stream: byte, pid: int)

  // ---------- what a section says about PIDs ----------

  /** How the PMT decoder classifies a stream type; bytes from 0x80 are sign-extended and match nothing. */
  function StreamApply(stream: byte): Apply {
    if stream in {STREAM_H264, STREAM_MPEG4} then ApplyVideo
    else if stream in {STREAM_AAC, STREAM_MP3} then ApplyAudio
    else ApplyReserved
  }

  function ApplyInfo(pids: Pids, info: EsInfo): Pids {
    if StreamApply(info.stream).ApplyReserved? then pids
    else SetPid(pids, info.pid, StreamApply(info.stream), info.stream)
  }

  function ApplyInfos(pids: Pids, infos: seq<EsInfo>): Pids
    decreases |infos|
  {
    if infos == [] then pids else ApplyInfos(ApplyInfo(pids, infos[0]), infos[1..])
  }

  function ApplyPat(pids: Pids, programPid: int, pid: int): Pids {
    SetPid(SetPid(pids, programPid, TsWire.ApplyPMT, STREAM_RESERVED), pid, TsWire.ApplyPAT, STREAM_RESERVED)
  }

  function ApplyPmt(pids: Pids, infos: seq<EsInfo>, pid: int): Pids {
    SetPid(ApplyInfos(pids, infos), pid, TsWire.ApplyPMT, STREAM_RESERVED)
  }

  // ---------- encoder ----------

  function Pid13(pid: int): (s: seq<byte>)
    ensures |s| == 2
  {
    [0xE0 + pid / 256 % 32, pid % 256]
  }

  /** table id, section length, then the fields all sections share. */
  function SectionHead(tableId: byte, length: nat, number: int): (s: seq<byte>)
    requires length < 0x1000
    ensures |s| == 8
  {
    [tableId, 0xB0 + length / 256, length % 256, number / 256 % 256, number % 256, 0xC1, 0, 0]
  }

  function PatSection(): (s: seq<byte>)
    ensures |s| == 12
  {
    SectionHead(0x00, 13, 1) + [0, PMT_NUMBER] + Pid13(PMT_PID)
  }

  function InfoBytes(info: EsInfo): (s: seq<byte>)
    ensures |s| == 5
  {
    [info.stream] + Pid13(info.pid) + [0xF0, 0]
  }

  function InfosBytes(infos: seq<EsInfo>): (s: seq<byte>)
    ensures |s| == 5 * |infos|
    decreases |infos|
  {
    if infos == [] then [] else InfoBytes(infos[0]) + InfosBytes(infos[1..])
  }

  function PmtSection(infos: seq<EsInfo>, pcrPid: int): (s: seq<byte>)
    requires |infos| <= 2
    ensures |s| == 12 + 5 * |infos|
  {
    SectionHead(0x02, 13 + 5 * |infos|, PMT_NUMBER) + Pid13(pcrPid) + [0xF0, 0] + InfosBytes(infos)
  }

  /** A PSI packet: header, pointer field, section, CRC, and 0xFF up to the packet size. */
  function PsiPacket(pid: int, section: seq<byte>): (s: seq<byte>)
    requires |section| <= 100
    ensures |s| == PACKET_SIZE
  {
    Header(true, pid, CONTROL_PAYLOAD, 0) + [0] + section + BigEndian(4, Crc32.Crc(section))
    + Stuffing(PACKET_SIZE - 9 - |section|)
  }

  // ---------- decoder ----------

  datatype PsiResult = PsiResult(status: Status, pids: Pids, pos: int)

  /** The program loop of SrsTsPayloadPAT::psi_decode; `left` bytes of programs remain. */
  function DecodePrograms(d: seq<byte>, pos: int, left: int, pids: Pids): (r: PsiResult)
    requires 0 <= pos
    ensures pos <= r.pos
    decreases left
  {
    if left <= 0 then PsiResult(Success, pids, pos)
    else if !Has(d, pos, 4) then PsiResult(PatError, pids, pos)
    else
      var pid := Be16(d[pos + 2], d[pos + 3]) % 0x2000;
      DecodePrograms(d, pos + 4, left - 4, SetPid(pids, pid, TsWire.ApplyPMT, STREAM_RESERVED))
  }

  function DecodePat(d: seq<byte>, pos: int, length: int, pid: int, pids: Pids): (r: PsiResult)
    requires 0 <= pos
    ensures pos <= r.pos
  {
    if !Has(d, pos, 5) then PsiResult(PatError, pids, pos)
    else
      var r := DecodePrograms(d, pos + 5, length - 4 - 5, pids);
      if r.status != Success then r
      else r.(pids := SetPid(r.pids, pid, TsWire.ApplyPAT, STREAM_RESERVED))
  }

  /** The elementary stream loop of SrsTsPayloadPMT::psi_decode. */
  function DecodeInfos(d: seq<byte>, pos: int, end: int, pids: Pids): (r: PsiResult)
    requires 0 <= pos
    ensures pos <= r.pos
    decreases end - pos
  {
    if pos >= end then PsiResult(Success, pids, pos)
    else if !Has(d, pos, 5) then PsiResult(PmtError, pids, pos)
    else
      var info := EsInfo(d[pos], Be16(d[pos + 1], d[pos + 2]) % 0x2000);
      var infoLength := Be16(d[pos + 3], d[pos + 4]) % 0x1000;
      if infoLength > 0 && !Has(d, pos + 5, infoLength) then PsiResult(PmtError, pids, pos + 5)
      else DecodeInfos(d, pos + 5 + infoLength, end, ApplyInfo(pids, info))
  }

  function DecodePmt(d: seq<byte>, pos: int, length: int, pid: int, pids: Pids): (r: PsiResult)
    requires 0 <= pos
    ensures pos <= r.pos
  {
    if !Has(d, pos, 9) then PsiResult(PmtError, pids, pos)
    else
      var infoLength := Be16(d[pos + 7], d[pos + 8]) % 0x1000;
      if infoLength > 0 && !Has(d, pos + 9, infoLength) then PsiResult(PmtError, pids, pos + 9)
      else
        var p := pos + 9 + infoLength;
        var r := DecodeInfos(d, p, p + length - 4 - 9 - infoLength, pids);
        if r.status != Success then r
        else r.(pids := SetPid(r.pids, pid, TsWire.ApplyPMT, STREAM_RESERVED))
  }

  /** SrsTsPayloadPSI::decode for a packet on `pid`. */
  function DecodePsi(d: seq<byte>, pos: int, unitStart: bool, isPat: bool, pid: int, pids: Pids): (r: PsiResult)
    requires 0 <= pos
    ensures r.status == Success ==> pos < r.pos
  {
    if unitStart && !Has(d, pos, 1) then PsiResult(PsiError, pids, pos)
    else
      DecodeTable(d, if unitStart then pos + 1 else pos, isPat, pid, pids)
  }

  /** The part behind the pointer field: table id, length, section and CRC. */
  function DecodeTable(d: seq<byte>, start: int, isPat: bool, pid: int, pids: Pids): (r: PsiResult)
    requires 0 <= start
    ensures r.status == Success ==> start < r.pos
  {
    if !Has(d, start, 3) then PsiResult(PsiError, pids, start)
    else
      var length := Be16(d[start + 1], d[start + 2]) % 0x1000;
      if length == 0 then PsiResult(Success, pids, start + 3)
      else if !Has(d, start + 3, length) then PsiResult(PsiError, pids, start + 3)
      else
        var r := if isPat then DecodePat(d, start + 3, length, pid, pids)
                 else DecodePmt(d, start + 3, length, pid, pids);
        if r.status != Success then r
        else if !Has(d, r.pos, 4) then r.(status := PsiError)
        else if Be32(d[r.pos], d[r.pos + 1], d[r.pos + 2], d[r.pos + 3]) != Crc32.Crc(d[start..r.pos]) then
          r.(status := CrcError, pos := r.pos + 4)
        else PsiResult(Success, r.pids, |d|)
  }

  // ---------- every encoded section is accepted ----------

  lemma CrcField(d: seq<byte>, section: seq<byte>, start: nat)
    requires start + |section| + 4 <= |d|
    requires d[start..start + |section|] == section
    requires d[start + |section|..start + |section| + 4] == BigEndian(4, Crc32.Crc(section))
    ensures var p := start + |section|;
            Be32(d[p], d[p + 1], d[p + 2], d[p + 3]) == Crc32.Crc(section)
  {
    hide *;
    var p := start + |section|;
    var field := d[p..p + 4];
    Unsigned4(field);
    Crc32.CrcOnTheWire(section);
    BigEndianRoundTrip(4, Crc32.Crc(section));
    Pow256Of4();
    assert field[0] == d[p] && field[1] == d[p + 1] && field[2] == d[p + 2] && field[3] == d[p + 3];
    Modulo32(Crc32.Crc(section));
  }

  lemma Modulo32(v: int)
    ensures 0 <= v < 0x1_0000_0000 ==> v % 0x1_0000_0000 == v
  {
  }

  /** The bytes of a PSI packet from the section on. */
  lemma PsiPacketParts(d: seq<byte>, pid: int, section: seq<byte>)
    requires |section| <= 100 && d == PsiPacket(pid, section)
    ensures d[5..5 + |section|] == section
    ensures d[5 + |section|..5 + |section| + 4] == BigEndian(4, Crc32.Crc(section))
    ensures d[..4] == Header(true, pid, CONTROL_PAYLOAD, 0)
    ensures forall i :: 0 <= i < |section| ==> d[5 + i] == section[i]
  {
  }

  /** A section whose own fields decode to its end passes the CRC check. */
  lemma SectionAccepted(d: seq<byte>, section: seq<byte>, isPat: bool, pid: int, pids: Pids, applied: Pids)
    requires 8 <= |section| <= 100 && |d| >= 9 + |section|
    requires d[5..5 + |section|] == section
    requires d[5 + |section|..5 + |section| + 4] == BigEndian(4, Crc32.Crc(section))
    requires Be16(d[6], d[7]) % 0x1000 == |section| + 1
    requires var r := if isPat then DecodePat(d, 8, |section| + 1, pid, pids)
                      else DecodePmt(d, 8, |section| + 1, pid, pids);
             r == PsiResult(Success, applied, 5 + |section|)
    ensures DecodePsi(d, 4, true, isPat, pid, pids) == PsiResult(Success, applied, |d|)
  {
    hide DecodePat, DecodePmt, Crc32.Crc;
    CrcField(d, section, 5);
  }

  /** The PAT packet passes the CRC check and enters its program and itself in the table. */
  lemma EncodedPatDecodes(pids: Pids)
    ensures DecodePsi(PsiPacket(PAT_PID, PatSection()), 4, true, true, PAT_PID, pids)
         == PsiResult(Success, ApplyPat(pids, PMT_PID, PAT_PID), PACKET_SIZE)
  {
    var section := PatSection();
    var d := PsiPacket(PAT_PID, section);
    PsiPacketParts(d, PAT_PID, section);
    PatFields(d, section, pids);
    SectionAccepted(d, section, true, PAT_PID, pids, ApplyPat(pids, PMT_PID, PAT_PID)) by {
      hide PsiPacket, DecodePat;
    }
  }

  lemma PatFields(d: seq<byte>, section: seq<byte>, pids: Pids)
    requires section == PatSection() && |d| >= 21
    requires forall i :: 0 <= i < |section| ==> d[5 + i] == section[i]
    ensures Be16(d[6], d[7]) % 0x1000 == 13
    ensures DecodePat(d, 8, 13, PAT_PID, pids) == PsiResult(Success, ApplyPat(pids, PMT_PID, PAT_PID), 17)
  {
    assert d[5 + 1] == section[1] && d[5 + 2] == section[2];
    assert d[5 + 10] == section[10] && d[5 + 11] == section[11];
    assert Be16(d[15], d[16]) % 0x2000 == PMT_PID;
    assert DecodePrograms(d, 17, 0, SetPid(pids, PMT_PID, TsWire.ApplyPMT, STREAM_RESERVED)).pos == 17;
  }

  /** One written stream entry, read. */
  lemma InfoRead(d: seq<byte>, pos: nat, info: EsInfo)
    requires pos + 5 <= |d| && d[pos..pos + 5] == InfoBytes(info) && 0 <= info.pid < 0x2000
    ensures EsInfo(d[pos], Be16(d[pos + 1], d[pos + 2]) % 0x2000) == info
    ensures Be16(d[pos + 3], d[pos + 4]) % 0x1000 == 0
  {
    var s := d[pos..pos + 5];
    assert s[0] == d[pos] && s[1] == d[pos + 1] && s[2] == d[pos + 2] && s[3] == d[pos + 3] && s[4] == d[pos + 4];
  }

  lemma {:induction false} EncodedInfosDecode(d: seq<byte>, pos: nat, infos: seq<EsInfo>, pids: Pids)
    requires pos + 5 * |infos| <= |d|
    requires d[pos..pos + 5 * |infos|] == InfosBytes(infos)
    requires forall i :: 0 <= i < |infos| ==> 0 <= infos[i].pid < 0x2000
    ensures DecodeInfos(d, pos, pos + 5 * |infos|, pids)
         == PsiResult(Success, ApplyInfos(pids, infos), pos + 5 * |infos|)
    decreases |infos|
  {
    hide Be16, InfoBytes, ApplyInfo;
    if infos != [] {
      var s, n := InfosBytes(infos), 5 * |infos|;
      assert s[..5] == InfoBytes(infos[0]) && s[5..] == InfosBytes(infos[1..]);
      assert d[pos..pos + n][..5] == d[pos..pos + 5] && d[pos..pos + n][5..] == d[pos + 5..pos + n];
      InfoRead(d, pos, infos[0]);
      EncodedInfosDecode(d, pos + 5, infos[1..], ApplyInfo(pids, infos[0]));
    }
  }

  lemma PmtBytes(section: seq<byte>, infos: seq<EsInfo>, pcrPid: int)
    requires |infos| <= 2 && section == PmtSection(infos, pcrPid)
    ensures Be16(section[1], section[2]) % 0x1000 == |section| + 1 == 13 + 5 * |infos|
    ensures section[10] == 0xF0 && section[11] == 0 && section[12..] == InfosBytes(infos)
  {
    hide InfosBytes;
  }

  lemma PmtFields(d: seq<byte>, section: seq<byte>, pids: Pids, infos: seq<EsInfo>, pcrPid: int)
    requires |infos| <= 2 && forall i :: 0 <= i < |infos| ==> 0 <= infos[i].pid < 0x2000
    requires section == PmtSection(infos, pcrPid) && |d| >= 9 + |section|
    requires d[5..5 + |section|] == section
    ensures Be16(d[6], d[7]) % 0x1000 == |section| + 1
    ensures DecodePmt(d, 8, |section| + 1, PMT_PID, pids)
         == PsiResult(Success, ApplyPmt(pids, infos, PMT_PID), 5 + |section|)
  {
    PmtBytes(section, infos, pcrPid);
    hide InfosBytes, PmtSection, DecodeInfos, ApplyInfos, SetPid;
    var s := d[5..5 + |section|];
    assert s[1] == d[6] && s[2] == d[7] && s[10] == d[15] && s[11] == d[16];
    assert s[12..] == d[17..17 + 5 * |infos|];
    EncodedInfosDecode(d, 17, infos, pids);
  }

  /** The PMT packet passes the CRC check and enters exactly its streams and itself in the table. */
  lemma EncodedPmtDecodes(pids: Pids, infos: seq<EsInfo>, pcrPid: int)
    requires |infos| <= 2 && forall i :: 0 <= i < |infos| ==> 0 <= infos[i].pid < 0x2000
    ensures DecodePsi(PsiPacket(PMT_PID, PmtSection(infos, pcrPid)), 4, true, false, PMT_PID, pids)
         == PsiResult(Success, ApplyPmt(pids, infos, PMT_PID), PACKET_SIZE)
  {
    var section := PmtSection(infos, pcrPid);
    var d := PsiPacket(PMT_PID, section);
    PsiPacketParts(d, PMT_PID, section);
    PmtFields(d, section, pids, infos, pcrPid);
    SectionAccepted(d, section, false, PMT_PID, pids, ApplyPmt(pids, infos, PMT_PID)) by {
      hide PsiPacket, DecodePmt;
    }
  }
}
