/**
 One message through the wire: the packets of TsWire.MessagePackets, decoded one stream each, rebuild the message on
 its PID. A message whose PES length field is 0 stays pending until the next unit start on the PID.
 */
module TsReassembly {
  import opened Bytes
  import opened TsWire
  import opened TsParse
  import opened TsPsi
  import opened TsDemux

  // ---------- fields ----------

  /** The fields that SrsTsPacket::decode reads are the ones that Header wrote. */
  lemma HeaderFields(d: seq<byte>, unitStart: bool, pid: int, control: int, cc: int)
    requires 0 <= pid < 0x2000 && 0 <= control < 4
    requires |d| >= 4 && d[..4] == Header(unitStart, pid, control, cc)
    ensures d[0] == 0x47 && Flag(d[1], 64) == unitStart && Be16(d[1], d[2]) % 0x2000 == pid
    ensures d[3] / 16 % 4 == control && d[3] % 16 == cc % 16
  {
    var h := Header(unitStart, pid, control, cc);
    assert d[0] == h[0] && d[1] == h[1] && d[2] == h[2] && d[3] == h[3];
  }

  /** The six PCR bytes give back the base modulo 2^33, rounded down to a multiple of 512. */
  lemma PcrRecovered(d: seq<byte>, pos: nat, pcr: int)
    requires pos + 6 <= |d| && d[pos..pos + 6] == PcrBytes(pcr)
    ensures PcrAt(d, pos) == pcr % 0x2_0000_0000 / 512 * 512
  {
    PcrArithmetic(pcr);
    PcrOfBytes(d[pos], d[pos + 1], d[pos + 2]);
    hide Be24, Be32;
    var s := d[pos..pos + 6];
    assert s[0] == d[pos] && s[1] == d[pos + 1] && s[2] == d[pos + 2] && s[3] == d[pos + 3] && s[4] == d[pos + 4];
  }

  lemma PcrOfBytes(a: byte, b: byte, c: byte)
    ensures Be32(a, b, c, 0) * 2 % 0x2_0000_0000 == Be24(a, b, c) * 512
  {
  }

  lemma PcrArithmetic(pcr: int)
    ensures Be24(pcr / 0x200_0000 % 256, pcr / 0x2_0000 % 256, pcr / 0x200 % 256) * 512
         == pcr % 0x2_0000_0000 / 512 * 512
  {
    var q := pcr / 512;
    DivTwice(pcr);
    Split24(q);
    ModThenDiv(pcr);
    hide Be24;
  }

  lemma DivTwice(v: int)
    ensures v / 0x2_0000 == v / 512 / 256 && v / 0x200_0000 == v / 512 / 65536
  {
  }

  lemma ModThenDiv(v: int)
    ensures v % 0x2_0000_0000 / 512 == v / 512 % 0x100_0000
  {
  }

  lemma Rest65536(k: int, r: int)
    requires 0 <= r < 65536
    ensures (65536 * k + r) / 65536 == k
  {
  }

  lemma Rest24(k: int, r: int)
    requires 0 <= r < 0x100_0000
    ensures (0x100_0000 * k + r) % 0x100_0000 == r
  {
  }

  lemma Split24(q: int)
    ensures Be24(q / 65536 % 256, q / 256 % 256, q % 256) == q % 0x100_0000
  {
    var a, b := q / 256, q / 65536;
    Rest65536(a / 256, a % 256 * 256 + q % 256);
    Rest24(b / 256, b % 256 * 65536 + a % 256 * 256 + q % 256);
  }

  /** An adaptation field that encode wrote is skipped exactly, whatever its stuffing. */
  lemma AfSkipped(d: seq<byte>, pos: nat, discontinuity: bool, pcr: Option<int>, reserved: nat)
    requires AfSize(pcr, reserved) <= 183 && pos + AfSize(pcr, reserved) <= |d|
    requires d[pos..pos + AfSize(pcr, reserved)] == AfBytes(discontinuity, pcr, reserved)
    ensures DecodeAf(d, pos, CONTROL_BOTH)
         == AfOk(pos + AfSize(pcr, reserved), if pcr.Some? then Some(pcr.value % 0x2_0000_0000 / 512 * 512) else None)
  {
    var b := AfBytes(discontinuity, pcr, reserved);
    assert forall k :: 0 <= k < |b| ==> d[pos + k] == b[k];
    assert d[pos + 0] == b[0] && d[pos + 1] == b[1];
    var flags := b[1];
    assert !Flag(flags, 1) && !Flag(flags, 2) && !Flag(flags, 4) && !Flag(flags, 8);
    assert Flag(flags, 16) == pcr.Some?;
    hide Flag, PcrAt;
    if pcr.Some? {
      assert d[pos + 2..pos + 8] == b[2..8] == PcrBytes(pcr.value);
      PcrRecovered(d, pos + 2, pcr.value);
    }
  }

  /** A 33-bit timestamp survives, modulo 2^33. */
  lemma Time33RoundTrip(d: seq<byte>, pos: nat, fb: int, v: int)
    requires 0 < fb < 16 && pos + 5 <= |d| && d[pos..pos + 5] == Time33(fb, v)
    ensures DecodeTime33(d, pos) == TimeOk(v % 0x2_0000_0000)
  {
    var b := Time33(fb, v);
    assert forall k :: 0 <= k < 5 ==> d[pos + k] == b[k];
    assert d[pos + 0] == b[0] && d[pos + 1] == b[1] && d[pos + 2] == b[2] && d[pos + 3] == b[3] && d[pos + 4] == b[4];
    var high, mid, low := v / 0x4000_0000 % 8, v / 0x8000 % 0x8000, v % 0x8000;
    Time33Parts(v);
    MarkedFields(d[pos], Be16(d[pos + 1], d[pos + 2]), Be16(d[pos + 3], d[pos + 4]), fb, high, mid, low);
  }

  lemma MarkedFields(first: int, second: int, third: int, fb: int, high: int, mid: int, low: int)
    requires 0 < fb && 0 <= high < 8
    requires first == fb * 16 + high * 2 + 1 && second == mid * 2 + 1 && third == low * 2 + 1
    ensures first % 2 == 1 && first / 16 != 0 && first / 2 % 8 == high
    ensures second % 2 == 1 && second / 2 == mid && third % 2 == 1 && third / 2 == low
  {
  }

  lemma Time33Parts(v: int)
    ensures v % 0x2_0000_0000 == v / 0x4000_0000 % 8 * 0x4000_0000 + v / 0x8000 % 0x8000 * 0x8000 + v % 0x8000
  {
    assert v / 0x8000 / 0x8000 == v / 0x4000_0000;
  }

  // ---------- one message on one channel ----------

  /** The length that the decoder will wait for; 0 means until the next unit start. */
  function AwaitedLength(m: Message): nat {
    if PesLengthField(|m.payload|, m.dts, m.pts) == 0 then 0 else |m.payload|
  }

  /** The decoder's message once `k` payload bytes have arrived and the last counter was `cc`. */
  function Partial(m: Message, cc: int, k: nat): Message
    requires k <= |m.payload|
  {
    Message(m.sid, m.dts % 0x2_0000_0000, m.pts % 0x2_0000_0000, AwaitedLength(m), cc % 16, false, false,
            m.payload[..k])
  }

  predicate IsComplete(m: Message, k: nat) { AwaitedLength(m) > 0 && k == |m.payload| }

  /** Messages whose stream id has an optional PES header; every audio and video id does. */
  predicate HasOptionalHeader(m: Message) { !IsRawStreamId(m.sid) && m.sid != PADDING_STREAM_ID }

  lemma MediaHasOptionalHeader(m: Message)
    requires m.IsAudio() || m.IsVideo()
    ensures HasOptionalHeader(m)
  {
  }

  /** The first nine bytes of the PES header. */
  lemma PesStart(d: seq<byte>, pos: nat, m: Message)
    requires pos + 9 + TimesSize(m.dts, m.pts) <= |d|
    requires d[pos..pos + 9 + TimesSize(m.dts, m.pts)] == PesHeader(m.sid, |m.payload|, m.dts, m.pts)
    ensures d[pos] == 0 && d[pos + 1] == 0 && d[pos + 2] == 1 && d[pos + 3] == m.sid
    ensures Be16(d[pos + 4], d[pos + 5]) == PesLengthField(|m.payload|, m.dts, m.pts)
    ensures d[pos + 7] == (if m.dts == m.pts then 0x80 else 0xC0) && d[pos + 8] == TimesSize(m.dts, m.pts)
  {
    hide Time33, PesLengthField;
    var b := PesHeader(m.sid, |m.payload|, m.dts, m.pts);
    var s := d[pos..pos + |b|];
    assert s[0] == d[pos] && s[1] == d[pos + 1] && s[2] == d[pos + 2] && s[3] == d[pos + 3] && s[4] == d[pos + 4];
    assert s[5] == d[pos + 5] && s[7] == d[pos + 7] && s[8] == d[pos + 8];
  }

  lemma Within(d: seq<byte>, pos: nat, n: nat, i: nat, j: nat)
    requires i <= j <= n && pos + n <= |d|
    ensures d[pos..pos + n][i..j] == d[pos + i..pos + j]
  {
    var a, b := d[pos..pos + n][i..j], d[pos + i..pos + j];
    assert forall k :: 0 <= k < |a| ==> a[k] == b[k];
  }

  /** The times behind them. */
  lemma PesTimes(d: seq<byte>, pos: nat, m: Message)
    requires pos + 9 + TimesSize(m.dts, m.pts) <= |d|
    requires d[pos..pos + 9 + TimesSize(m.dts, m.pts)] == PesHeader(m.sid, |m.payload|, m.dts, m.pts)
    ensures DecodeTime33(d, pos + 9) == TimeOk(m.pts % 0x2_0000_0000)
    ensures m.dts != m.pts ==> DecodeTime33(d, pos + 14) == TimeOk(m.dts % 0x2_0000_0000)
  {
    hide Time33, PesLengthField, DecodeTime33;
    var b := PesHeader(m.sid, |m.payload|, m.dts, m.pts);
    Within(d, pos, |b|, 9, 14);
    if m.dts == m.pts {
      assert b[9..14] == Time33(2, m.pts);
      Time33RoundTrip(d, pos + 9, 2, m.pts);
    } else {
      Within(d, pos, |b|, 14, 19);
      assert b[9..14] == Time33(3, m.pts) && b[14..19] == Time33(1, m.dts);
      Time33RoundTrip(d, pos + 9, 3, m.pts);
      Time33RoundTrip(d, pos + 14, 1, m.dts);
    }
  }

  /** The optional header of the first packet, read back. */
  lemma PesOptionalRead(d: seq<byte>, pos: nat, m: Message, m0: Message)
    requires m.payload != []
    requires pos + 9 + TimesSize(m.dts, m.pts) <= |d|
    requires d[pos..pos + 9 + TimesSize(m.dts, m.pts)] == PesHeader(m.sid, |m.payload|, m.dts, m.pts)
    requires m0.pesLength == 0
    ensures d[pos] == 0 && d[pos + 1] == 0 && d[pos + 2] == 1 && d[pos + 3] == m.sid
    ensures Be16(d[pos + 4], d[pos + 5]) == PesLengthField(|m.payload|, m.dts, m.pts)
    ensures DecodePesOptional(d, pos + 6, PesLengthField(|m.payload|, m.dts, m.pts), m0)
         == PesHeaderOk(m0.(pts := m.pts % 0x2_0000_0000, dts := m.dts % 0x2_0000_0000, pesLength := AwaitedLength(m)),
                        pos + 9 + TimesSize(m.dts, m.pts))
  {
    PesStart(d, pos, m);
    PesTimes(d, pos, m);
    hide PesHeader, Time33, DecodeTime33;
  }

  /** What the channel holds, and what is delivered, once `k` bytes of `m` are in. */
  function Held(m: Message, cc: int, k: nat): Option<Message>
    requires k <= |m.payload|
  {
    if IsComplete(m, k) then None else Some(Partial(m, cc, k))
  }

  function DeliveredAt(pid: int, m: Message, cc: int, k: nat): Option<Delivered>
    requires k <= |m.payload|
  {
    if IsComplete(m, k) then Some(Delivered(pid, Partial(m, cc, k))) else None
  }

  /** A unit start on a channel with nothing pending takes in the first chunk. */
  lemma PesUnitStart(d: seq<byte>, pos: nat, m: Message, cc: int, k: nat)
    requires HasOptionalHeader(m) && 0 < k <= |m.payload| && 0 < pos
    requires |d| == pos + 9 + TimesSize(m.dts, m.pts) + k
    requires d[pos..pos + 9 + TimesSize(m.dts, m.pts)] == PesHeader(m.sid, |m.payload|, m.dts, m.pts)
    requires d[pos + 9 + TimesSize(m.dts, m.pts)..] == m.payload[..k]
    ensures DecodePes(d, pos, true, cc % 16, None)
         == PesResult(Success, Held(m, cc, k), if IsComplete(m, k) then Some(Partial(m, cc, k)) else None, |d|)
  {
    hide DecodePesOptional, PesHeader, Time33;
    var m1 := FRESH_MESSAGE.(cc := cc % 16).(sid := m.sid);
    PesOptionalRead(d, pos, m, m1);
    var p := pos + 9 + TimesSize(m.dts, m.pts);
    assert d[p..p + k] == d[p..];
    assert AwaitedLength(m) > 0 ==> AwaitedLength(m) == |m.payload|;
    assert Dump(d, p, Partial(m, cc, 0)) == (Partial(m, cc, k), |d|) by {
      assert m.payload[..0] + m.payload[..k] == m.payload[..k];
    }
    assert Partial(m, cc, 0).payload == [];
  }

  /** A continuation appends the next chunk. */
  lemma PesContinue(d: seq<byte>, pos: nat, m: Message, cc: byte, k: nat, n: nat)
    requires 0 < k && 0 < n && k + n <= |m.payload| && 0 < pos
    requires |d| == pos + n && d[pos..] == m.payload[k..k + n]
    ensures DecodePes(d, pos, false, NextCc(cc) % 16, Some(Partial(m, cc, k)))
         == PesResult(Success, Held(m, NextCc(cc), k + n),
                      if IsComplete(m, k + n) then Some(Partial(m, NextCc(cc), k + n)) else None, |d|)
  {
    hide DecodeUnitStart;
    var m1 := Partial(m, NextCc(cc), k);
    assert d[pos..pos + n] == d[pos..];
    assert m.payload[..k] + m.payload[k..k + n] == m.payload[..k + n];
    assert Dump(d, pos, m1) == (Partial(m, NextCc(cc), k + n), |d|);
  }

  // ---------- whole packets ----------

  predicate IsMedia(pids: Pids, pid: int) {
    0 < pid < 0x2000 && pid in pids && (pids[pid].apply == ApplyVideo || pids[pid].apply == ApplyAudio)
  }

  /** Up to the payload, a packet is read as it was laid out. */
  lemma PacketDispatch(pids: Pids, d: seq<byte>, unitStart: bool, pid: int, cc: byte, plan: Plan,
                       discontinuity: bool, pcr: Option<int>)
    requires IsMedia(pids, pid) && |d| == PACKET_SIZE && AfSize(pcr, plan.reserved) <= 183
    requires pcr.Some? ==> plan.hasAf
    requires var af := OptionalAf(plan, discontinuity, pcr);
             4 + |af| < |d| && d[..4 + |af|] == Header(unitStart, pid, Control(plan.hasAf), cc) + af
    ensures var pos := 4 + |OptionalAf(plan, discontinuity, pcr)|;
            DecodePacket(pids, d, 0) == DecodePayload(pids, d, pos, unitStart, pid, cc % 16, PACKET_SIZE)
  {
    var af := OptionalAf(plan, discontinuity, pcr);
    hide DecodePacket, DecodeAf, DecodePayload, AfBytes, Header, Flag, Be16;
    HeaderAndField(d, Header(unitStart, pid, Control(plan.hasAf), cc), af);
    HeaderFields(d, unitStart, pid, Control(plan.hasAf), cc);
    if plan.hasAf {
      AfSkipped(d, 4, discontinuity, pcr, plan.reserved);
    }
    FieldsDispatch(pids, d, plan.hasAf, 4 + |af|);
  }

  lemma HeaderAndField(d: seq<byte>, header: seq<byte>, af: seq<byte>)
    requires |header| == 4 && 4 + |af| < |d| && d[..4 + |af|] == header + af
    ensures d[..4] == header && d[4..4 + |af|] == af
  {
    assert d[..4 + |af|][..4] == header && d[..4 + |af|][4..] == af;
  }

  lemma FieldsDispatch(pids: Pids, d: seq<byte>, hasAf: bool, pos: nat)
    requires |d| == PACKET_SIZE && d[0] == 0x47 && d[3] / 16 % 4 == Control(hasAf)
    requires if hasAf then DecodeAf(d, 4, CONTROL_BOTH).AfOk? && DecodeAf(d, 4, CONTROL_BOTH).pos == pos else pos == 4
    ensures DecodePacket(pids, d, 0)
         == DecodePayload(pids, d, pos, Flag(d[1], 64), Be16(d[1], d[2]) % 0x2000, d[3] % 16, PACKET_SIZE)
  {
    hide DecodeAf, DecodePayload, Flag, Be16;
  }

  function ToSeq<T>(o: Option<T>): seq<T> { if o.Some? then [o.value] else [] }

  /** A stream that one packet consumes. */
  lemma OnePacketStream(pids: Pids, d: seq<byte>, r: PacketResult)
    requires |d| == PACKET_SIZE && DecodePacket(pids, d, 0) == r && r.status == Success && r.pos == PACKET_SIZE
    ensures DecodeAll(pids, d, 0) == AllResult(Success, r.pids, ToSeq(r.out))
  {
    hide DecodePacket;
  }

  lemma PayloadIsPes(pids: Pids, d: seq<byte>, pos: int, unitStart: bool, pid: int, cc: byte, r: PesResult)
    requires IsMedia(pids, pid) && 0 < pos && 0 < |d| && DecodePes(d, pos, unitStart, cc, pids[pid].msg) == r
    ensures DecodePayload(pids, d, pos, unitStart, pid, cc, PACKET_SIZE)
         == PacketResult(r.status, SetMsg(pids, pid, r.msg), r.pos,
                         if r.out.Some? then Some(Delivered(pid, r.out.value)) else None)
  {
    hide DecodePes, DecodePsi;
  }

  lemma FirstPacketParts(d: seq<byte>, pid: int, cc: byte, m: Message, pcr: Option<int>)
    requires m.payload != [] && d == FirstPacket(pid, cc, m, pcr)
    ensures var plan := FirstPlan(m, pcr);
            AfSize(pcr, plan.reserved) <= 183 && (pcr.Some? ==> plan.hasAf) && 0 < plan.left <= |m.payload|
    ensures var plan := FirstPlan(m, pcr);
            var af := OptionalAf(plan, pcr.Some? && m.isDiscontinuity, pcr);
            var pos := 4 + |af|;
            var p := pos + 9 + TimesSize(m.dts, m.pts);
            p + plan.left == |d|
            && d[..pos] == Header(true, pid, Control(plan.hasAf), cc) + af
            && d[pos..p] == PesHeader(m.sid, |m.payload|, m.dts, m.pts)
            && d[p..] == m.payload[..plan.left]
  {
    PlanFillsPacket(FirstBase(m, pcr), pcr.Some?, |m.payload|);
    var plan := FirstPlan(m, pcr);
    var af := OptionalAf(plan, pcr.Some? && m.isDiscontinuity, pcr);
    var pos := 4 + |af|;
    var p := pos + 9 + TimesSize(m.dts, m.pts);
    assert |d| == PACKET_SIZE;
    assert p + plan.left == |d|;
  }

  /** The first packet of a message, on a channel with nothing pending. */
  lemma FirstPacketDecodes(pids: Pids, pid: int, cc: byte, m: Message, pcr: Option<int>)
    requires IsMedia(pids, pid) && pids[pid].msg.None? && HasOptionalHeader(m) && m.payload != []
    ensures var k := FirstPlan(m, pcr).left;
            0 < k <= |m.payload|
            && DecodeAll(pids, FirstPacket(pid, cc, m, pcr), 0)
               == AllResult(Success, SetMsg(pids, pid, Held(m, cc, k)), ToSeq(DeliveredAt(pid, m, cc, k)))
  {
    hide FirstPacket, DecodePacket, DecodePayload, DecodePes, PesHeader, AfBytes, Header, FirstPlan, DecodeAll, Partial;
    var d := FirstPacket(pid, cc, m, pcr);
    FirstPacketParts(d, pid, cc, m, pcr);
    var plan := FirstPlan(m, pcr);
    var discontinuity := pcr.Some? && m.isDiscontinuity;
    var pos := 4 + |OptionalAf(plan, discontinuity, pcr)|;
    PacketDispatch(pids, d, true, pid, cc, plan, discontinuity, pcr);
    PesUnitStart(d, pos, m, cc, plan.left);
    PayloadIsPes(pids, d, pos, true, pid, cc % 16, DecodePes(d, pos, true, cc % 16, None));
    OnePacketStream(pids, d, DecodePacket(pids, d, 0));
  }

  lemma NextPacketParts(d: seq<byte>, pid: int, cc: byte, rest: seq<byte>)
    requires rest != [] && d == NextPacket(pid, cc, rest)
    ensures var plan := NextPlan(|rest|); AfSize(None, plan.reserved) <= 183 && 0 < plan.left <= |rest|
    ensures var plan := NextPlan(|rest|);
            var af := OptionalAf(plan, false, None);
            var pos := 4 + |af|;
            pos + plan.left == |d|
            && d[..pos] == Header(false, pid, Control(plan.hasAf), cc) + af
            && d[pos..] == rest[..plan.left]
  {
    PlanFillsPacket(4, false, |rest|);
  }

  /** A continuation packet of the message that the channel holds. */
  lemma NextPacketDecodes(pids: Pids, pid: int, cc: byte, m: Message, k: nat)
    requires IsMedia(pids, pid) && 0 < k < |m.payload| && pids[pid].msg == Some(Partial(m, cc, k))
    ensures var n := NextPlan(|m.payload| - k).left;
            0 < n <= |m.payload| - k
            && DecodeAll(pids, NextPacket(pid, NextCc(cc), m.payload[k..]), 0)
               == AllResult(Success, SetMsg(pids, pid, Held(m, NextCc(cc), k + n)),
                            ToSeq(DeliveredAt(pid, m, NextCc(cc), k + n)))
  {
    hide NextPacket, DecodePacket, DecodePayload, DecodePes, AfBytes, Header, NextPlan, DecodeAll, Partial;
    var rest := m.payload[k..];
    var d := NextPacket(pid, NextCc(cc), rest);
    NextPacketParts(d, pid, NextCc(cc), rest);
    var plan := NextPlan(|rest|);
    var pos := 4 + |OptionalAf(plan, false, None)|;
    PacketDispatch(pids, d, false, pid, NextCc(cc), plan, false, None);
    assert rest[..plan.left] == m.payload[k..k + plan.left];
    PesContinue(d, pos, m, cc, k, plan.left);
    PayloadIsPes(pids, d, pos, false, pid, NextCc(cc) % 16, DecodePes(d, pos, false, NextCc(cc) % 16, pids[pid].msg));
    OnePacketStream(pids, d, DecodePacket(pids, d, 0));
  }

  lemma DecodeRunNil(pids: Pids)
    ensures DecodeRun(pids, []) == AllResult(Success, pids, [])
  {
  }

  /** The remaining packets of a message complete it. */
  lemma {:induction false} NextPacketsDecode(pids: Pids, pid: int, cc: byte, m: Message, k: nat)
    requires IsMedia(pids, pid) && 0 < k <= |m.payload| && pids[pid].msg == Held(m, cc, k)
    ensures var packets := NextPackets(pid, NextCc(cc), m.payload[k..]);
            var last := AdvanceCc(cc, |packets|);
            DecodeRun(pids, packets)
            == AllResult(Success, SetMsg(pids, pid, Held(m, last, |m.payload|)),
                         if k < |m.payload| then ToSeq(DeliveredAt(pid, m, last, |m.payload|)) else [])
    decreases |m.payload| - k
  {
    hide NextPackets, NextPacket, NextPlan, NextCc, AdvanceCc, SetMsg, Held, DeliveredAt, DecodeAll, DecodeRun;
    var rest := m.payload[k..];
    if k == |m.payload| {
      NoPackets(pids, pid, cc);
      assert rest == [];
    } else {
      MoreToCome(pid, m, cc, k);
      NextPacketDecodes(pids, pid, cc, m, k);
      var n := NextPlan(|rest|).left;
      var held := Held(m, NextCc(cc), k + n);
      var pids1 := SetMsg(pids, pid, held);
      var tail := NextPackets(pid, NextCc(NextCc(cc)), m.payload[k + n..]);
      assert rest[n..] == m.payload[k + n..];
      NextPacketsCons(pid, cc, rest);
      SetMsgTwice(pids, pid, held, Held(m, AdvanceCc(cc, |tail| + 1), |m.payload|));
      NextPacketsDecode(pids1, pid, NextCc(cc), m, k + n);
      DecodeRunCons(pids, NextPacket(pid, NextCc(cc), rest), tail);
      if k + n == |m.payload| {
        NoPackets(pids1, pid, NextCc(cc));
        assert tail == [];
      } else {
        MoreToCome(pid, m, NextCc(cc), k + n);
      }
    }
  }

  lemma NoPackets(pids: Pids, pid: int, cc: byte)
    requires pid in pids
    ensures NextPackets(pid, NextCc(cc), []) == [] && AdvanceCc(cc, 0) == cc
    ensures SetMsg(pids, pid, pids[pid].msg) == pids && DecodeRun(pids, []) == AllResult(Success, pids, [])
  {
  }

  /** Before its end a message is held, not delivered. */
  lemma MoreToCome(pid: int, m: Message, cc: int, k: nat)
    requires k < |m.payload|
    ensures Held(m, cc, k) == Some(Partial(m, cc, k)) && DeliveredAt(pid, m, cc, k) == None
  {
  }

  lemma NextPacketsCons(pid: int, cc: byte, rest: seq<byte>)
    requires rest != []
    ensures 0 < NextPlan(|rest|).left <= |rest|
    ensures var tail := NextPackets(pid, NextCc(NextCc(cc)), rest[NextPlan(|rest|).left..]);
            && NextPackets(pid, NextCc(cc), rest) == [NextPacket(pid, NextCc(cc), rest)] + tail
            && AdvanceCc(NextCc(cc), |tail|) == AdvanceCc(cc, |tail| + 1)
  {
    PlanFillsPacket(4, false, |rest|);
    OneMore(cc, |NextPackets(pid, NextCc(NextCc(cc)), rest[NextPlan(|rest|).left..])|);
    hide NextPacket, PlanPacket, NextCc, AdvanceCc;
  }

  lemma OneMore(cc: byte, n: nat)
    ensures AdvanceCc(NextCc(cc), n) == AdvanceCc(cc, n + 1)
  {
  }

  lemma SetMsgTwice(pids: Pids, pid: int, first: Option<Message>, second: Option<Message>)
    requires IsMedia(pids, pid)
    ensures var pids1 := SetMsg(pids, pid, first);
            IsMedia(pids1, pid) && pids1[pid].msg == first && SetMsg(pids1, pid, second) == SetMsg(pids, pid, second)
  {
  }

  lemma DecodeRunCons(pids: Pids, d: seq<byte>, tail: seq<seq<byte>>)
    requires DecodeAll(pids, d, 0).status == Success
    ensures var one := DecodeAll(pids, d, 0);
            var rest := DecodeRun(one.pids, tail);
            DecodeRun(pids, [d] + tail) == AllResult(rest.status, rest.pids, one.out + rest.out)
  {
    hide DecodeAll;
    assert ([d] + tail)[1..] == tail;
  }

  /** A message of unknown length, complete but not yet delivered, after counter `cc - 1`. */
  predicate IsPending(p: Message, cc: int) { p.pesLength == 0 && p.payload != [] && (p.cc + 1) % 16 == cc % 16 }

  predicate ChannelReady(channel: Channel, cc: int) { channel.msg.None? || IsPending(channel.msg.value, cc) }

  function PendingOut(pid: int, msg: Option<Message>, cc: int): seq<Delivered> {
    if msg.None? then [] else [Delivered(pid, msg.value.(cc := cc % 16))]
  }

  /** A unit start first delivers the pending message, then the same packet is parsed again. */
  lemma UnitStartReapsPending(pids: Pids, d: seq<byte>, pos: int, pid: int, cc: byte)
    requires IsMedia(pids, pid) && ChannelReady(pids[pid], cc) && |d| == PACKET_SIZE && 0 < pos
    requires DecodePacket(pids, d, 0) == DecodePayload(pids, d, pos, true, pid, cc % 16, PACKET_SIZE)
    requires DecodeAll(SetMsg(pids, pid, None), d, 0).status == Success
    ensures var rest := DecodeAll(SetMsg(pids, pid, None), d, 0);
            DecodeAll(pids, d, 0) == rest.(out := PendingOut(pid, pids[pid].msg, cc) + rest.out)
  {
    hide DecodeAf, DecodePsi, DecodeUnitStart, DecodePacket;
    if pids[pid].msg.None? {
      assert SetMsg(pids, pid, None) == pids;
      assert [] + DecodeAll(pids, d, 0).out == DecodeAll(pids, d, 0).out;
    } else {
      var p := pids[pid].msg.value;
      assert DecodePes(d, pos, true, cc % 16, Some(p)) == PesResult(Success, None, Some(p.(cc := cc % 16)), 0);
      PayloadIsPes(pids, d, pos, true, pid, cc % 16, DecodePes(d, pos, true, cc % 16, Some(p)));
      RewindOnce(pids, d, SetMsg(pids, pid, None), Delivered(pid, p.(cc := cc % 16)));
    }
  }

  lemma RewindOnce(pids: Pids, d: seq<byte>, pids1: Pids, out: Delivered)
    requires |d| == PACKET_SIZE && DecodePacket(pids, d, 0) == PacketResult(Success, pids1, 0, Some(out))
    ensures var rest := DecodeAll(pids1, d, 0); DecodeAll(pids, d, 0) == rest.(out := [out] + rest.out)
  {
    hide DecodePacket;
  }

  /** A whole message: it delivers what was pending, then itself if its length was announced. */
  lemma MessageDecodes(pids: Pids, pid: int, cc: byte, m: Message, pcr: Option<int>)
    requires IsMedia(pids, pid) && ChannelReady(pids[pid], cc) && HasOptionalHeader(m) && m.payload != []
    ensures var packets := MessagePackets(pid, cc, m, pcr);
            var last := AdvanceCc(cc, |packets| - 1);
            DecodeRun(pids, packets)
            == AllResult(Success, SetMsg(pids, pid, Held(m, last, |m.payload|)),
                         PendingOut(pid, pids[pid].msg, cc) + ToSeq(DeliveredAt(pid, m, last, |m.payload|)))
  {
    hide FirstPacket, DecodeAll, FirstPlan, Partial, DecodeRun, NextPackets, DecodePacket, DecodePayload,
         OptionalAf, PesHeader, Header, AwaitedLength;
    var d := FirstPacket(pid, cc, m, pcr);
    var k := FirstPlan(m, pcr).left;
    var clean := SetMsg(pids, pid, None);
    FirstPacketDecodes(clean, pid, cc, m, pcr);
    FirstPacketParts(d, pid, cc, m, pcr);
    var discontinuity := pcr.Some? && m.isDiscontinuity;
    PacketDispatch(pids, d, true, pid, cc, FirstPlan(m, pcr), discontinuity, pcr);
    UnitStartReapsPending(pids, d, 4 + |OptionalAf(FirstPlan(m, pcr), discontinuity, pcr)|, pid, cc);
    var pids1 := SetMsg(clean, pid, Held(m, cc, k));
    assert pids1 == SetMsg(pids, pid, Held(m, cc, k));
    NextPacketsDecode(pids1, pid, cc, m, k);
    var tail := NextPackets(pid, NextCc(cc), m.payload[k..]);
    var last := AdvanceCc(cc, |tail|);
    assert SetMsg(pids1, pid, Held(m, last, |m.payload|)) == SetMsg(pids, pid, Held(m, last, |m.payload|));
    DecodeRunCons(pids, d, tail);
    NoTail(pid, cc, m, k);
    assert MessagePackets(pid, cc, m, pcr) == [d] + tail;
  }

  lemma NoTail(pid: int, cc: byte, m: Message, k: nat)
    requires k <= |m.payload|
    ensures k == |m.payload| ==> NextPackets(pid, NextCc(cc), m.payload[k..]) == [] && AdvanceCc(cc, 0) == cc
  {
  }
}
