/**
 What SrsTsContext::decode does with a stream, as functions of its bytes `d` and a position in them.
 Every function follows the reads of the source in order; a `require` that fails is an error status and an
 assertion that fails is the status `Abort`.
 */
module TsParse {
  import opened Bytes
  import opened TsWire

  datatype Status =
    | Success
    | HeaderError
    | SyncByteError
    | AdaptationFieldError
    | PesError
    | PsiError
    | PatError
    | PmtError
    | CrcError
    | Abort
    | Unmodelled

  /** A PID of the context, with the message under reassembly. */
  datatype Channel = Channel(apply: Apply, stream: byte, msg: Option<Message>, cc: byte)

  type Pids = map<int, Channel>

  const FRESH_MESSAGE := Message(0, 0, 0, 0, 0, false, false, [])

  /** SrsTsContext::set. */
  function SetPid(pids: Pids, pid: int, apply: Apply, stream: byte): (r: Pids)
  {
    if pid in pids then pids[pid := pids[pid].(apply := apply, stream := stream)]
    else pids[pid := Channel(apply, stream, None, 0)]
  }

  function SetMsg(pids: Pids, pid: int, msg: Option<Message>): Pids
    requires pid in pids
  {
    pids[pid := pids[pid].(msg := msg)]
  }

  /** `SrsStream::require(n)` at position `pos`. */
  predicate Has(d: seq<byte>, pos: int, n: int) { n <= |d| - pos }

  // ---------- adaptation field ----------

  datatype AfResult = AfOk(pos: int, pcr: Option<int>) | AfFailed

  predicate Flag(b: byte, weight: int)
    requires weight > 0
  {
    b / weight % 2 == 1
  }

  /** The position after the optional parts of the field, or None when a `require` fails. */
  function AfOptionalEnd(d: seq<byte>, flags: byte, pos: int): (end: Option<int>)
    requires 0 <= pos <= |d|
  {
    var p1 := pos + (if Flag(flags, 16) then 6 else 0);
    var p2 := p1 + (if Flag(flags, 8) then 6 else 0);
    var p3 := p2 + (if Flag(flags, 4) then 1 else 0);
    if p3 > |d| then None
    else if !Flag(flags, 2) then AfExtensionEnd(d, flags, p3)
    else if !Has(d, p3, 1) then None
    else if d[p3] > 0 && !Has(d, p3 + 1, d[p3]) then None
    else AfExtensionEnd(d, flags, p3 + 1 + d[p3])
  }

  function AfExtensionEnd(d: seq<byte>, flags: byte, pos: int): (end: Option<int>)
    requires 0 <= pos <= |d|
  {
    if !Flag(flags, 1) then Some(pos)
    else if !Has(d, pos, 2) then None
    else
      var ltwfv := d[pos + 1];
      var q := pos + 2 + (if Flag(ltwfv, 128) then 2 else 0) + (if Flag(ltwfv, 64) then 3 else 0)
               + (if Flag(ltwfv, 32) then 5 else 0);
      if q > |d| then None else Some(pos + d[pos])
  }

  function PcrAt(d: seq<byte>, pos: int): int
    requires 0 <= pos && pos + 6 <= |d|
  {
    // bits 15..47 of the 48-bit field
    (Be32(d[pos], d[pos + 1], d[pos + 2], d[pos + 3]) * 2 + d[pos + 4] / 128) % 0x2_0000_0000
  }

  /** SrsTsAdaptationField::decode. */
  function DecodeAf(d: seq<byte>, pos: int, control: int): (r: AfResult)
    requires 0 <= pos
    ensures r.AfOk? ==> pos < r.pos
  {
    if !Has(d, pos, 2) then AfFailed
    else
      var length := d[pos];
      if control == CONTROL_BOTH && length > 182 then AfFailed
      else if control == CONTROL_ADAPTION && length != 183 then AfFailed
      else if length == 0 then AfOk(pos + 1, None)
      else
        var flags := d[pos + 1];
        if AfOptionalEnd(d, flags, pos + 2).None? then AfFailed
        else AfOk(pos + 1 + length, if Flag(flags, 16) then Some(PcrAt(d, pos + 2)) else None)
  }

  // ---------- PES ----------

  /** SrsTsMessage::dump: the message and the position after it. */
  function Dump(d: seq<byte>, pos: int, m: Message): (r: (Message, int))
    requires 0 <= pos
    ensures pos <= r.1
    ensures r.0 == m.(payload := r.0.payload)
    ensures r.0.pesLength > 0 && |r.0.payload| < r.0.pesLength ==> r.1 >= |d|
    ensures r.0.pesLength == 0 ==> r.1 >= |d|
  {
    if pos >= |d| then (m, pos)
    else
      var n := if m.pesLength > 0 then Min(|d| - pos, m.pesLength - |m.payload|) else |d| - pos;
      if n > 0 then (m.(payload := m.payload + d[pos..pos + n]), pos + n) else (m, pos)
  }

  /** Stream ids whose PES packet has no optional header. */
  predicate IsRawStreamId(sid: byte) { sid in {0xbc, 0xbf, 0xf0, 0xf1, 0xff, 0xf2, 0xf8} }

  const PADDING_STREAM_ID: byte := 0xbe

  datatype TimeResult = TimeOk(value: int) | TimeFailed

  /** SrsTsPayloadPES::decode_33bits_dts_pts. */
  function DecodeTime33(d: seq<byte>, pos: int): TimeResult
    requires 0 <= pos
  {
    if !Has(d, pos, 5) then TimeFailed
    else
      var mid := Be16(d[pos + 1], d[pos + 2]);
      var low := Be16(d[pos + 3], d[pos + 4]);
      if d[pos] % 2 != 1 || d[pos] / 16 == 0 || mid % 2 != 1 || low % 2 != 1 then TimeFailed
      else TimeOk(d[pos] / 2 % 8 * 0x4000_0000 + mid / 2 * 0x8000 + low / 2)
  }

  datatype PesHeaderResult =
    | PesHeaderOk(m: Message, pos: int)
    | PesHeaderFailed(m: Message, status: Status)

  /** The bytes that the flags of the optional PES header announce. */
  function PesRequired(pefv: byte): (n: nat)
    ensures (pefv / 64 == 2 ==> n >= 5) && (pefv / 64 == 3 ==> n >= 10)
  {
    (if pefv / 64 == 2 then 5 else if pefv / 64 == 3 then 10 else 0)
    + (if Flag(pefv, 32) then 6 else 0) + (if Flag(pefv, 16) then 3 else 0) + (if Flag(pefv, 8) then 1 else 0)
    + (if Flag(pefv, 4) then 1 else 0) + (if Flag(pefv, 2) then 2 else 0) + (if Flag(pefv, 1) then 1 else 0)
  }

  /** The optional PES header after the 6-byte fixed one, up to the first payload byte. */
  function DecodePesOptional(d: seq<byte>, pos: int, length: int, m: Message): (r: PesHeaderResult)
    requires 0 <= pos && 0 <= length
    ensures r.PesHeaderOk? ==> pos < r.pos && r.m.payload == m.payload
    ensures r.PesHeaderFailed? ==> r.status != Success
  {
    if !Has(d, pos, 3) then PesHeaderFailed(m, PesError)
    else
      var pefv := d[pos + 1];
      var required := PesRequired(pefv);
      if required == 0 then PesHeaderFailed(m, Abort)  // require(0) trips its assertion
      else if !Has(d, pos + 3, required) then PesHeaderFailed(m, PesError)
      else if Flag(pefv, 1) then PesHeaderFailed(m, Unmodelled)
      else
        var first := if pefv / 64 >= 2 then DecodeTime33(d, pos + 3) else TimeOk(m.pts);
        var second := if pefv / 64 == 3 then DecodeTime33(d, pos + 8)
                      else if pefv / 64 == 2 then first else TimeOk(m.dts);
        if first.TimeFailed? || second.TimeFailed? then PesHeaderFailed(m, PesError)
        else
          var timed := m.(pts := first.value, dts := second.value);
          var stuffings := d[pos + 2] - required;
          if stuffings > 0 && !Has(d, pos + 3 + required, stuffings) then PesHeaderFailed(timed, PesError)
          else
            var p := pos + 3 + required + (if stuffings > 0 then stuffings else 0);
            var left := length - (p - pos);
            PesHeaderOk(timed.(pesLength := if length == 0 then m.pesLength else if left > 0 then left else 0), p)
  }

  datatype PesResult = PesResult(status: Status, msg: Option<Message>, out: Option<Message>, pos: int)

  /** The part of SrsTsPayloadPES::decode for a packet that starts a unit. */
  function DecodeUnitStart(d: seq<byte>, pos: int, m: Message): (r: PesResult)
    requires 0 <= pos
    ensures r.out.None?
    ensures r.status == Success ==> r.msg.Some? && (pos < r.pos || r.pos >= |d|)
    ensures r.status == Success && r.msg.value.pesLength > |r.msg.value.payload| ==> r.pos >= |d|
    ensures r.status == Success && r.msg.value.pesLength == 0 ==> r.pos >= |d|
  {
    if !Has(d, pos, 6) then PesResult(PesError, Some(m), None, pos)
    else if Be24(d[pos], d[pos + 1], d[pos + 2]) != 1 then PesResult(PesError, Some(m), None, pos + 6)
    else
      var sid := d[pos + 3];
      var length := Be16(d[pos + 4], d[pos + 5]);
      var m1 := m.(sid := sid);
      if sid == PADDING_STREAM_ID then PesResult(Success, Some(m1), None, |d|)
      else if IsRawStreamId(sid) then
        var (m2, p) := Dump(d, pos + 6, m1);
        PesResult(Success, Some(m2), None, p)
      else
        match DecodePesOptional(d, pos + 6, length, m1)
        case PesHeaderFailed(m2, status) => PesResult(status, Some(m2), None, pos + 6)
        case PesHeaderOk(m2, p) =>
          var (m3, q) := Dump(d, p, m2);
          PesResult(Success, Some(m3), None, q)
  }

  /** SrsTsPayloadPES::decode for the message of the packet's channel; `pos == 0` in the result means reparse. */
  function DecodePes(d: seq<byte>, pos: int, unitStart: bool, cc: byte, pending: Option<Message>): (r: PesResult)
    requires 0 < pos && 0 < |d|
    ensures r.status == Success && r.pos == 0 ==> r.msg.None? && pending.Some?
    ensures r.status == Success && r.pos != 0 ==> pos < r.pos || r.pos >= |d|
    ensures r.status == Success && r.pos != 0 && r.msg.Some? ==> r.pos >= |d|
  {
    var m := if pending.Some? then pending.value else FRESH_MESSAGE;
    var isFresh := m.Fresh();
    if isFresh && !unitStart then PesResult(PesError, Some(m), None, pos)
    else if !isFresh && m.pesLength > 0 && !m.Completed(unitStart) && unitStart then PesResult(Success, None, None, 0)
    else if !isFresh && m.cc >= cc && (m.cc + 1) % 16 > cc then PesResult(Success, Some(m), None, |d|)
    else if !isFresh && (m.cc + 1) % 16 != cc then PesResult(Success, None, None, 0)
    else
      var m1 := m.(cc := cc);
      if !isFresh && m1.Completed(unitStart) then PesResult(Success, None, Some(m1), 0)
      else
        var r := if unitStart then DecodeUnitStart(d, pos, m1)
                 else var (m2, p) := Dump(d, pos, m1); PesResult(Success, Some(m2), None, p);
        if r.status != Success then r
        else if isFresh && r.msg.value.pesLength == 0 then r
        else if r.msg.value.Completed(unitStart) then PesResult(Success, None, r.msg, r.pos)
        else r
  }
}
