/**
 The transport stream packets that SrsTsContext::encode_pes puts on the wire, as values:
 4-byte packet header, optional adaptation field, PES header in the first packet, payload chunk.
 */
module TsWire {
  import opened Bytes

  const PACKET_SIZE: nat := 188

  /** What a PID carries. */
  datatype Apply = ApplyReserved | ApplyPAT | ApplyPMT | ApplyVideo | ApplyAudio

  const STREAM_RESERVED: byte := 0x00
  const STREAM_MP3: byte := 0x04
  const STREAM_AAC: byte := 0x0f
  const STREAM_MPEG4: byte := 0x10
  const STREAM_H264: byte := 0x1b
  const STREAM_AC3: byte := 0x81
  const STREAM_DTS: byte := 0x8a

  const CONTROL_PAYLOAD: int := 1
  const CONTROL_ADAPTION: int := 2
  const CONTROL_BOTH: int := 3

  /** A media message; `pesLength` and `cc` are only used while it is being reassembled. */
  datatype Message = Message(sid: byte, dts: int, pts: int, pesLength: nat, cc: byte,
                             isDiscontinuity: bool, writePcr: bool, payload: seq<byte>)
  {
    predicate IsAudio() { sid / 32 % 8 == 6 }
    predicate IsVideo() { sid / 16 % 16 == 14 }
    predicate Fresh() { payload == [] }
    predicate Completed(unitStart: bool) { if pesLength == 0 then unitStart else |payload| >= pesLength }
  }

  function NextCc(cc: byte): byte { (cc + 1) % 256 }

  function Header(unitStart: bool, pid: int, control: int, cc: int): (s: seq<byte>)
    requires 0 <= control < 4
    ensures |s| == 4
  {
    [0x47, (if unitStart then 0x40 else 0) + pid / 256 % 32, pid % 256, control * 16 + cc % 16]
  }

  function Stuffing(n: nat): (s: seq<byte>)
    ensures |s| == n
  {
    seq(n, i => 0xFF)
  }

  /** The six PCR bytes: the mask 0x1FFFFFFFF000000 drops the low nine bits of the base. */
  function PcrBytes(pcr: int): (s: seq<byte>)
    ensures |s| == 6
  {
    [pcr / 0x200_0000 % 256, pcr / 0x2_0000 % 256, pcr / 0x200 % 256, 0, 0x7E, 0]
  }

  function AfSize(pcr: Option<int>, reserved: nat): nat {
    2 + (if pcr.Some? then 6 else 0) + reserved
  }

  function AfBytes(discontinuity: bool, pcr: Option<int>, reserved: nat): (s: seq<byte>)
    requires AfSize(pcr, reserved) <= 183
    ensures |s| == AfSize(pcr, reserved)
  {
    [AfSize(pcr, reserved) - 1, (if discontinuity then 0x80 else 0) + (if pcr.Some? then 0x10 else 0)]
    + (if pcr.Some? then PcrBytes(pcr.value) else []) + Stuffing(reserved)
  }

  /** Five bytes of a 33-bit timestamp, with marker bits. */
  function Time33(fb: int, v: int): (s: seq<byte>)
    requires 0 <= fb < 16
    ensures |s| == 5
  {
    var mid := v / 0x8000 % 0x8000 * 2 + 1;
    var low := v % 0x8000 * 2 + 1;
    [fb * 16 + v / 0x4000_0000 % 8 * 2 + 1, mid / 256, mid % 256, low / 256, low % 256]
  }

  function TimesSize(dts: int, pts: int): nat { if dts == pts then 5 else 10 }

  /** The PES_packet_length field: payload plus the rest of the PES header, or 0 when that needs 17 bits. */
  function PesLengthField(size: nat, dts: int, pts: int): (n: nat)
    ensures n < 0x1_0000
  {
    if 0 < size <= 0xFFFF && size + 3 + TimesSize(dts, pts) <= 0xFFFF then size + 3 + TimesSize(dts, pts) else 0
  }

  function PesHeader(sid: byte, size: nat, dts: int, pts: int): (s: seq<byte>)
    ensures |s| == 9 + TimesSize(dts, pts)
  {
    var length := PesLengthField(size, dts, pts);
    [0, 0, 1, sid, length / 256, length % 256, 0x80,
     if dts == pts then 0x80 else 0xC0, TimesSize(dts, pts)]
    + (if dts == pts then Time33(2, pts) else Time33(3, pts) + Time33(1, dts))
  }

  /** How one packet is filled: payload bytes taken, whether it has an adaptation field, stuffing bytes in it. */
  datatype Plan = Plan(left: nat, hasAf: bool, reserved: nat)

  /** The decision of encode_pes and SrsTsPacket::padding for `base` bytes of headers and `rest` bytes to send. */
  function PlanPacket(base: nat, hasAf: bool, rest: nat): (p: Plan)
    requires base + 2 < PACKET_SIZE
  {
    var left := Min(rest, PACKET_SIZE - base);
    var stuffings := PACKET_SIZE - base - left;
    if stuffings == 0 then Plan(left, hasAf, 0)
    else if hasAf then Plan(left, true, stuffings)
    else
      var reserved := if stuffings > 2 then stuffings - 2 else 0;
      Plan(Min(rest, PACKET_SIZE - base - 2 - reserved), true, reserved)
  }

  /** The plan always fills the packet exactly and makes progress. */
  lemma PlanFillsPacket(base: nat, hasAf: bool, rest: nat)
    requires 4 <= base && base + 2 < PACKET_SIZE && rest > 0
    ensures var p := PlanPacket(base, hasAf, rest);
            0 < p.left <= rest
            && base + (if p.hasAf && !hasAf then 2 else 0) + p.reserved + p.left == PACKET_SIZE
            && (hasAf ==> p.hasAf) && (p.reserved > 0 ==> p.hasAf)
  {
  }

  /** Whatever the base holds, 4 header bytes of it are no adaptation field: the field's length byte is at most 182. */
  lemma AdaptationFieldFits(base: nat, hasAf: bool, rest: nat)
    requires 4 <= base && base + 2 < PACKET_SIZE && rest > 0
    ensures var p := PlanPacket(base, hasAf, rest);
            p.hasAf ==> base - 4 + (if hasAf then 0 else 2) + p.reserved - 1 <= 182
  {
    PlanFillsPacket(base, hasAf, rest);
  }

  function Control(hasAf: bool): int { if hasAf then CONTROL_BOTH else CONTROL_PAYLOAD }

  /** Headers of the first packet before any stuffing is added. */
  function FirstBase(m: Message, pcr: Option<int>): (n: nat)
    ensures 4 <= n && n + 2 < PACKET_SIZE
  {
    4 + (if pcr.Some? then 8 else 0) + 9 + TimesSize(m.dts, m.pts)
  }

  function FirstPlan(m: Message, pcr: Option<int>): Plan
  {
    PlanPacket(FirstBase(m, pcr), pcr.Some?, |m.payload|)
  }

  function OptionalAf(plan: Plan, discontinuity: bool, pcr: Option<int>): seq<byte>
    requires AfSize(pcr, plan.reserved) <= 183
  {
    if plan.hasAf then AfBytes(discontinuity, pcr, plan.reserved) else []
  }

  function FirstPacket(pid: int, cc: byte, m: Message, pcr: Option<int>): (s: seq<byte>)
    requires m.payload != []
    ensures |s| == PACKET_SIZE
  {
    PlanFillsPacket(FirstBase(m, pcr), pcr.Some?, |m.payload|);
    var plan := FirstPlan(m, pcr);
    Header(true, pid, Control(plan.hasAf), cc)
    + OptionalAf(plan, pcr.Some? && m.isDiscontinuity, pcr)
    + PesHeader(m.sid, |m.payload|, m.dts, m.pts)
    + m.payload[..plan.left]
  }

  function NextPlan(rest: nat): Plan { PlanPacket(4, false, rest) }

  function NextPacket(pid: int, cc: byte, rest: seq<byte>): (s: seq<byte>)
    requires rest != []
    ensures |s| == PACKET_SIZE
  {
    PlanFillsPacket(4, false, |rest|);
    var plan := NextPlan(|rest|);
    Header(false, pid, Control(plan.hasAf), cc) + OptionalAf(plan, false, None) + rest[..plan.left]
  }

  /** The continuation packets for the bytes still to send. */
  function NextPackets(pid: int, cc: byte, rest: seq<byte>): (packets: seq<seq<byte>>)
    ensures forall i :: 0 <= i < |packets| ==> |packets[i]| == PACKET_SIZE
    decreases |rest|
  {
    if rest == [] then []
    else
      PlanFillsPacket(4, false, |rest|);
      [NextPacket(pid, cc, rest)] + NextPackets(pid, NextCc(cc), rest[NextPlan(|rest|).left..])
  }

  /** All packets of one message. */
  function MessagePackets(pid: int, cc: byte, m: Message, pcr: Option<int>): (packets: seq<seq<byte>>)
    requires m.payload != []
    ensures |packets| >= 1 && forall i :: 0 <= i < |packets| ==> |packets[i]| == PACKET_SIZE
  {
    PlanFillsPacket(FirstBase(m, pcr), pcr.Some?, |m.payload|);
    [FirstPacket(pid, cc, m, pcr)] + NextPackets(pid, NextCc(cc), m.payload[FirstPlan(m, pcr).left..])
  }

  /** The counter after `n` packets. */
  function AdvanceCc(cc: byte, n: nat): byte { (cc + n) % 256 }
}
